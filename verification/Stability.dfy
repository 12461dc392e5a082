/** Resolving does nothing to a document without respellings, nothing more the second time, and does not
    depend on the order of a map's entries unless two respellings compete. */
module Stability {
  import opened Wrappers
  import opened Json
  import opened Resolution
  import opened Collisions
  import opened Documents
  import opened KeyResolution

  // ---------- the tree as written ----------

  function AsWritten(node: Node): Value
    decreases node
  {
    match node
    case Held(value) => value
    case Section(entries) => Object(FieldsAsWritten(entries))
  }

  function FieldsAsWritten(entries: seq<Entry>): map<string, Value>
    decreases entries
  {
    if entries == [] then map[]
    else
      var n := |entries| - 1;
      FieldsAsWritten(entries[..n])[entries[n].key := AsWritten(entries[n].node)]
  }

  lemma {:induction false} FieldWritten(entries: seq<Entry>, i: nat)
    requires DistinctKeys(entries) && i < |entries|
    ensures entries[i].key in FieldsAsWritten(entries)
    ensures FieldsAsWritten(entries)[entries[i].key] == AsWritten(entries[i].node)
  {
    var n := |entries| - 1;
    if i < n {
      assert entries[..n][i] == entries[i];
      FieldWritten(entries[..n], i);
    }
  }

  lemma {:induction false} WrittenField(entries: seq<Entry>, key: string) returns (i: nat)
    requires key in FieldsAsWritten(entries)
    ensures i < |entries| && entries[i].key == key
  {
    var n := |entries| - 1;
    if entries[n].key == key {
      i := n;
    } else {
      i := WrittenField(entries[..n], key);
      assert entries[..n][i] == entries[i];
    }
  }

  lemma {:induction false} ValueWritten(schema: Schema, entries: seq<Entry>, w: Path, v: Placed)
    requires WellRead(schema, Section(entries), w) && v in Values(entries, w)
    ensures w < v.path && At(Object(FieldsAsWritten(entries)), v.path[|w|..]) == Some(v.value)
    decreases entries
  {
    var i := ValueEntry(entries, w, v);
    var node, w' := entries[i].node, w + [entries[i].key];
    NodeBelow(schema, entries, w, i);
    FieldWritten(entries, i);
    assert v.path[|w|..] == [entries[i].key] + v.path[|w'|..];
    AtCons(Object(FieldsAsWritten(entries)), entries[i].key, v.path[|w'|..]);
    if node.Section? {
      ValueWritten(schema, node.entries, w', v);
    }
  }

  lemma {:induction false} SectionWritten(schema: Schema, entries: seq<Entry>, w: Path, s: Path)
    requires WellRead(schema, Section(entries), w) && s in Sections(entries, w)
    ensures w < s && ShapeAt(Object(FieldsAsWritten(entries)), s[|w|..]) == Branch
    decreases entries
  {
    var i := SectionEntry(entries, w, s);
    var node, w' := entries[i].node, w + [entries[i].key];
    NodeBelow(schema, entries, w, i);
    FieldWritten(entries, i);
    assert s[|w|..] == [entries[i].key] + s[|w'|..];
    AtCons(Object(FieldsAsWritten(entries)), entries[i].key, s[|w'|..]);
    if s in Sections(node.entries, w') {
      SectionWritten(schema, node.entries, w', s);
    } else {
      assert s == w';
    }
  }

  ghost function ValueMap(values: seq<Placed>): map<Path, Value> {
    map t | t in PathsOf(values) && LastAt(values, t).Some? :: LastAt(values, t).value
  }

  ghost predicate Covered(entries: seq<Entry>, w: Path, p: Path) {
    p in Sections(entries, w) || exists v :: v in Values(entries, w) && v.path <= p
  }

  lemma CoveredByEntry(entries: seq<Entry>, w: Path, i: nat, p: Path)
    requires i < |entries| && entries[i].node.Section?
    requires Covered(entries[i].node.entries, w + [entries[i].key], p)
    ensures Covered(entries, w, p)
  {
    var node, w' := entries[i].node, w + [entries[i].key];
    if p in Sections(node.entries, w') {
      EntrySection(entries, w, i, p);
    } else {
      var v :| v in Values(node.entries, w') && v.path <= p;
      EntryValue(entries, w, i, v);
    }
  }

  lemma {:induction false} NothingElseWritten(schema: Schema, entries: seq<Entry>, w: Path, q: Path)
    requires WellRead(schema, Section(entries), w)
    requires q != [] && At(Object(FieldsAsWritten(entries)), q).Some?
    ensures Covered(entries, w, w + q)
    decreases entries
  {
    var i := WrittenField(entries, q[0]);
    var node, w' := entries[i].node, w + [entries[i].key];
    FieldWritten(entries, i);
    assert w' + q[1..] == w + q;
    match node
    case Held(value) =>
      EntryValue(entries, w, i, Placed(w', value));
      assert Placed(w', value).path <= w + q;
    case Section(inner) =>
      if q[1..] == [] {
        assert w' == w + q;
        EntrySection(entries, w, i, w');
      } else {
        assert At(Object(FieldsAsWritten(inner)), q[1..]).Some?;
        NothingElseWritten(schema, inner, w', q[1..]);
        CoveredByEntry(entries, w, i, w + q);
      }
  }

  lemma ValueMapSource(values: seq<Placed>, a: Path)
    requires a in ValueMap(values)
    ensures Placed(a, ValueMap(values)[a]) in values
  {
    LastAtFound(values, a);
  }

  lemma ValueMapValue(values: seq<Placed>, v: Placed)
    requires Apart(values) && v in values
    ensures v.path in ValueMap(values) && ValueMap(values)[v.path] == v.value
  {
    var i :| 0 <= i < |values| && values[i] == v;
    LastAtFound(values, v.path);
    assert values[i].path in PathsOf(values);
  }

  lemma ValueMapApart(values: seq<Placed>)
    requires Apart(values)
    ensures Antichain(ValueMap(values))
  {}

  lemma ValueMapMembers(schema: Schema, entries: seq<Entry>)
    requires IsDocument(schema, entries)
    ensures
      var values := Values(entries, []);
      && Antichain(ValueMap(values))
      && (forall v :: v in values ==> v.path in ValueMap(values) && ValueMap(values)[v.path] == v.value)
      && (forall a :: a in ValueMap(values) ==> Placed(a, ValueMap(values)[a]) in values)
  {
    var values := Values(entries, []);
    ValuesInOrderApart(schema, entries, []);
    ValueMapApart(values);
    forall a | a in ValueMap(values) { ValueMapSource(values, a); }
    forall v | v in values { ValueMapValue(values, v); }
  }

  lemma PrefixIsBranch(v: Value, p: Path, q: Path)
    requires p < q && At(v, q).Some?
    ensures ShapeAt(v, p) == Branch
  {
    AtConcat(v, p, q[|p|..]);
    assert p + q[|p|..] == q;
  }

  lemma ValueAtRoot(schema: Schema, entries: seq<Entry>, a: Path)
    requires IsDocument(schema, entries) && a in ValueMap(Values(entries, []))
    ensures At(Object(FieldsAsWritten(entries)), a) == Some(ValueMap(Values(entries, []))[a])
  {
    ValueMapMembers(schema, entries);
    ValueWritten(schema, entries, [], Placed(a, ValueMap(Values(entries, []))[a]));
    assert a[0..] == a;
  }

  lemma WrittenUnder(schema: Schema, entries: seq<Entry>, p: Path)
    requires IsDocument(schema, entries) && Under(ValueMap(Values(entries, [])), p)
    ensures ShapeAt(Object(FieldsAsWritten(entries)), p) == Shown(ValueMap(Values(entries, [])), {}, p)
  {
    var root := Object(FieldsAsWritten(entries));
    var a := Owner(ValueMap(Values(entries, [])), p);
    ValueAtRoot(schema, entries, a);
    AtConcat(root, a, p[|a|..]);
    assert a + p[|a|..] == p;
  }

  lemma WrittenOpen(schema: Schema, entries: seq<Entry>, p: Path)
    requires IsDocument(schema, entries)
    requires Above(ValueMap(Values(entries, [])), p) || Opens(Elements(Sections(entries, [])), p)
    ensures ShapeAt(Object(FieldsAsWritten(entries)), p) == Branch
  {
    var root := Object(FieldsAsWritten(entries));
    if Above(ValueMap(Values(entries, [])), p) {
      var a :| a in ValueMap(Values(entries, [])) && p < a;
      ValueAtRoot(schema, entries, a);
      PrefixIsBranch(root, p, a);
    } else {
      var s :| s in Elements(Sections(entries, [])) && p <= s;
      SectionWritten(schema, entries, [], s);
      assert s[0..] == s;
      if p < s { PrefixIsBranch(root, p, s); } else { assert p == s; }
    }
  }

  lemma WrittenCovered(schema: Schema, entries: seq<Entry>, p: Path)
    requires IsDocument(schema, entries)
    requires p != [] && At(Object(FieldsAsWritten(entries)), p).Some?
    ensures Under(ValueMap(Values(entries, [])), p) || Opens(Elements(Sections(entries, [])), p)
  {
    NothingElseWritten(schema, entries, [], p);
    assert [] + p == p;
    ValueMapMembers(schema, entries);
    CoveredShows(entries, p);
  }

  lemma AsWrittenShape(schema: Schema, entries: seq<Entry>, p: Path)
    requires IsDocument(schema, entries)
    ensures ShapeAt(Object(FieldsAsWritten(entries)), p)
         == Shown(ValueMap(Values(entries, [])), Elements(Sections(entries, [])), p)
  {
    var claims, sections := ValueMap(Values(entries, [])), Elements(Sections(entries, []));
    if Under(claims, p) {
      WrittenUnder(schema, entries, p);
    } else if Above(claims, p) || Opens(sections, p) {
      WrittenOpen(schema, entries, p);
    } else if p != [] && At(Object(FieldsAsWritten(entries)), p).Some? {
      WrittenCovered(schema, entries, p);
    }
  }

  lemma CoveredShows(entries: seq<Entry>, p: Path)
    requires Covered(entries, [], p)
    requires forall v :: v in Values(entries, []) ==> v.path in ValueMap(Values(entries, []))
    ensures Under(ValueMap(Values(entries, [])), p) || Opens(Elements(Sections(entries, [])), p)
  {
    if p in Sections(entries, []) {
      assert p in Elements(Sections(entries, [])) && p <= p;
    }
  }

  /** The tree as written holds exactly the written values and sections. */
  lemma AsWrittenHolds(schema: Schema, entries: seq<Entry>)
    requires IsDocument(schema, entries)
    ensures Holds(FieldsAsWritten(entries), ValueMap(Values(entries, [])), Elements(Sections(entries, [])))
  {
    forall p { AsWrittenShape(schema, entries, p); }
  }

  // ---------- documents that resolve to themselves ----------

  /** A value that is not null sits at or above `c`. */
  ghost predicate Guarded(claims: map<Path, Value>, c: Path) {
    exists a :: a in claims && a <= c && claims[a] != Null
  }

  /** Every value is in place, and every section is either at its canonical path or kept alive by a value in
      it, with its canonical path written too or blocked. */
  ghost predicate Settled(schema: Schema, entries: seq<Entry>) {
    && (forall v :: v in Values(entries, []) ==> schema.Stays(v.path))
    && (forall s :: s in Sections(entries, []) ==>
          && (ShapeAt(Object(FieldsAsWritten(entries)), schema.Canon(s)) == Branch ||
              Guarded(ValueMap(Values(entries, [])), schema.Canon(s)))
          && (schema.Canon(s) == s || Above(ValueMap(Values(entries, [])), s)))
  }

  /** With nothing moved, each value in place is a claim and nothing else is. */
  lemma InPlaceClaims(inPlace: seq<Placed>, a: Path)
    requires InPlaceApart(inPlace)
    ensures forall v :: v in inPlace && v.path == a ==> a in Claims(inPlace, []) && Claims(inPlace, [])[a] == v.value
    ensures a in Claims(inPlace, []) ==> Placed(a, Claims(inPlace, [])[a]) in inPlace
  {
    ClaimsDomain(inPlace, []);
    LastAtFound(inPlace, a);
    forall v | v in inPlace && v.path == a ensures LastAt(inPlace, a) == Some(v.value) {
      var i :| 0 <= i < |inPlace| && inPlace[i] == v;
      assert inPlace[i].path in PathsOf(inPlace);
    }
    if a in Claims(inPlace, []) {
      ClaimOrigin(inPlace, [], a);
    }
  }

  lemma SettledMembers(schema: Schema, values: seq<Placed>)
    requires forall v :: v in values ==> schema.Stays(v.path)
    ensures Moved(schema, values) == []
    ensures forall v :: v in InPlace(schema, values) <==> v in values && v.value != Null
  {}

  lemma ClaimsOfValues(inPlace: seq<Placed>, values: seq<Placed>, all: map<Path, Value>, a: Path)
    requires InPlaceApart(inPlace)
    requires forall v :: v in inPlace <==> v in values && v.value != Null
    requires forall v :: v in values ==> v.path in all && all[v.path] == v.value
    requires a in all ==> Placed(a, all[a]) in values
    ensures a in Claims(inPlace, []) <==> a in all && all[a] != Null
    ensures a in Claims(inPlace, []) ==> Claims(inPlace, [])[a] == all[a]
  {
    InPlaceClaims(inPlace, a);
  }

  lemma SettledInPlace(schema: Schema, entries: seq<Entry>, a: Path)
    requires IsDocument(schema, entries) && Settled(schema, entries)
    ensures
      var values := Values(entries, []);
      var claims := Claims(InPlace(schema, values), Moved(schema, values));
      && (a in claims <==> a in ValueMap(values) && ValueMap(values)[a] != Null)
      && (a in claims ==> claims[a] == ValueMap(values)[a])
  {
    var values := Values(entries, []);
    DocumentCoherent(schema, entries);
    SettledMembers(schema, values);
    ValueMapMembers(schema, entries);
    ClaimsOfValues(InPlace(schema, values), values, ValueMap(values), a);
  }

  lemma NoNeighbour(all: map<Path, Value>, claims: map<Path, Value>, n: Path)
    requires Antichain(all) && n in all
    requires forall a :: a in claims ==> a in all && a != n
    ensures !Under(claims, n) && !Above(claims, n)
  {}

  lemma NullOutside(root: Value, claims: map<Path, Value>, sections: set<Path>, n: Path)
    requires Antichain(claims) && n in claims && claims[n] == Null && At(root, n) == Some(Null)
    requires forall c :: c in sections ==> ShapeAt(root, c) == Branch || Guarded(claims, c)
    ensures !Opens(sections, n)
  {
    assert ShapeAt(root, n) == Scalar(Null);
    forall c | c in sections ensures !(n <= c) {
      if n < c && ShapeAt(root, c) == Branch { PrefixIsBranch(root, n, c); }
      assert n == c ==> ShapeAt(root, n) == ShapeAt(root, c);
      if n <= c && Guarded(claims, c) {
        var a :| a in claims && a <= c && claims[a] != Null;
        ComparablePrefixes(a, n, c);
      }
    }
  }

  lemma SettledBranches(schema: Schema, entries: seq<Entry>)
    requires Settled(schema, entries)
    ensures forall c :: c in DocumentSections(schema, entries) ==>
              ShapeAt(Object(FieldsAsWritten(entries)), c) == Branch || Guarded(ValueMap(Values(entries, [])), c)
  {}

  lemma SettledNulls(schema: Schema, entries: seq<Entry>, claims: map<Path, Value>, n: Path)
    requires IsDocument(schema, entries) && Settled(schema, entries)
    requires forall a :: a in claims ==> a in ValueMap(Values(entries, [])) && ValueMap(Values(entries, []))[a] != Null
    ensures
      var all := ValueMap(Values(entries, []));
      n in KeptNulls(claims, DocumentSections(schema, entries), Elements(Nulls(schema, Values(entries, [])))) <==>
      n in all && all[n] == Null
  {
    var values := Values(entries, []);
    var all := ValueMap(values);
    ValueMapMembers(schema, entries);
    GatheredMembers(schema, values);
    assert n in Nulls(schema, values) <==> n in all && all[n] == Null by {
      if n in all && all[n] == Null { assert Placed(n, Null) in values; }
    }
    if n in all && all[n] == Null {
      NoNeighbour(all, claims, n);
      ValueAtRoot(schema, entries, n);
      SettledBranches(schema, entries);
      NullOutside(Object(FieldsAsWritten(entries)), all, DocumentSections(schema, entries), n);
    }
  }

  lemma NullsComplete(claims: map<Path, Value>, kept: set<Path>, all: map<Path, Value>)
    requires forall a :: a in claims <==> a in all && all[a] != Null
    requires forall a :: a in claims ==> claims[a] == all[a]
    requires forall n :: n in kept <==> n in all && all[n] == Null
    ensures WithNulls(claims, kept) == all
  {}

  lemma SettledClaims(schema: Schema, entries: seq<Entry>)
    requires IsDocument(schema, entries) && Settled(schema, entries)
    ensures DocumentClaims(schema, entries) == ValueMap(Values(entries, []))
  {
    var values := Values(entries, []);
    var claims := Claims(InPlace(schema, values), Moved(schema, values));
    forall a { SettledInPlace(schema, entries, a); }
    forall n { SettledNulls(schema, entries, claims, n); }
    var kept := KeptNulls(claims, DocumentSections(schema, entries), Elements(Nulls(schema, values)));
    NullsComplete(claims, kept, ValueMap(values));
  }

  lemma SameHolds(a: map<string, Value>, b: map<string, Value>, claims: map<Path, Value>, s: set<Path>, t: set<Path>)
    requires Holds(a, claims, s) && Holds(b, claims, t)
    requires forall p :: Shown(claims, s, p) == Shown(claims, t, p)
    ensures a == b
  {
    forall p ensures ShapeAt(Object(a), p) == ShapeAt(Object(b), p) {
      assert ShapeAt(Object(a), p) == Shown(claims, s, p);
      assert ShapeAt(Object(b), p) == Shown(claims, t, p);
    }
    SameShapes(Object(a), Object(b));
  }

  lemma SettledSections(schema: Schema, entries: seq<Entry>, p: Path)
    requires IsDocument(schema, entries) && Settled(schema, entries)
    ensures
      var claims := ValueMap(Values(entries, []));
      Shown(claims, Elements(Sections(entries, [])), p) == Shown(claims, DocumentSections(schema, entries), p)
  {
    var claims, written, canonical := ValueMap(Values(entries, [])), Elements(Sections(entries, [])), DocumentSections(schema, entries);
    var root := Object(FieldsAsWritten(entries));
    if Opens(canonical, p) {
      var c :| c in canonical && p <= c;
      SettledBranches(schema, entries);
      if ShapeAt(root, c) == Branch {
        if p < c { PrefixIsBranch(root, p, c); } else { assert p == c; }
        AsWrittenShape(schema, entries, p);
      } else {
        assert Under(claims, c);
        UnderBoth(claims, p, c);
      }
    } else if Opens(written, p) {
      var s :| s in written && p <= s;
      assert s in Sections(entries, []);
      var i :| 0 <= i < |Sections(entries, [])| && Sections(entries, [])[i] == s;
      assert Canonical(schema, Sections(entries, []))[i] == schema.Canon(s);
      assert schema.Canon(s) in canonical;
      AboveShrinks(claims, p, s);
    }
  }

  lemma SettledResolves(schema: Schema, entries: seq<Entry>)
    requires IsDocument(schema, entries) && Settled(schema, entries)
    ensures Resolve(schema, entries) == FieldsAsWritten(entries)
  {
    SettledClaims(schema, entries);
    ResolveHolds(schema, entries);
    AsWrittenHolds(schema, entries);
    var claims := ValueMap(Values(entries, []));
    forall p { SettledSections(schema, entries, p); }
    SameHolds(FieldsAsWritten(entries), Resolve(schema, entries), claims,
              Elements(Sections(entries, [])), DocumentSections(schema, entries));
  }

  /** A document with no respelled key resolves to exactly the tree as written, empty sections and nulls
      included. */
  lemma AsWrittenWhenUnrespelled(schema: Schema, entries: seq<Entry>)
    requires IsDocument(schema, entries)
    requires forall v :: v in Values(entries, []) ==> schema.Stays(v.path)
    requires forall s :: s in Sections(entries, []) ==> schema.Canon(s) == s
    ensures Resolve(schema, entries) == FieldsAsWritten(entries)
  {
    forall s | s in Sections(entries, []) ensures ShapeAt(Object(FieldsAsWritten(entries)), schema.Canon(s)) == Branch {
      SectionWritten(schema, entries, [], s);
      assert s[0..] == s;
    }
    SettledResolves(schema, entries);
  }

  // ---------- resolving twice ----------

  /** A section path whose every prefix is a section and its own canonical path. */
  ghost predicate CanonicalSection(schema: Schema, c: Path) {
    forall u :: u != [] && u <= c ==> schema.Canon(u) == u && schema.IsSection(u)
  }

  /** The sections are canonical and no null stands where a section opens. */
  ghost predicate Fits(schema: Schema, claims: map<Path, Value>, sections: set<Path>) {
    && (forall c :: c in sections ==> CanonicalSection(schema, c))
    && (forall a :: a in claims && claims[a] == Null ==> !Opens(sections, a))
  }

  lemma ClaimFits(schema: Schema, entries: seq<Entry>, a: Path)
    requires IsDocument(schema, entries) && a in DocumentClaims(schema, entries)
    ensures a != [] && Rooted(schema, a) && schema.Stays(a)
    ensures schema.IsSection(schema.Canon(a)) ==> !DocumentClaims(schema, entries)[a].Object?
  {
    ValuesNamed(schema, entries);
    var v := ClaimSource(schema, entries, a);
    TargetKind(schema, v.path, []);
    TargetStays(schema, v.path);
    forall u | u != [] && u < a ensures schema.IsSection(schema.Canon(u)) {
      TargetKind(schema, v.path, u);
    }
  }

  lemma NullFits(schema: Schema, entries: seq<Entry>, a: Path)
    requires IsDocument(schema, entries) && a in DocumentClaims(schema, entries)
    requires DocumentClaims(schema, entries)[a] == Null
    ensures !Opens(DocumentSections(schema, entries), a)
  {
    var values := Values(entries, []);
    var inPlace, moved := InPlace(schema, values), Moved(schema, values);
    GatheredMembers(schema, values);
    ClaimsNotNull(inPlace, moved, a);
    if a in Claims(inPlace, moved) {
      NullsAreNew(Claims(inPlace, moved), DocumentSections(schema, entries), Elements(Nulls(schema, values)), a);
    }
  }

  lemma ClaimsNotNull(inPlace: seq<Placed>, moved: seq<Placed>, a: Path)
    requires forall v :: v in inPlace || v in moved ==> v.value != Null
    ensures a in Claims(inPlace, moved) ==> Claims(inPlace, moved)[a] != Null
  {
    if a in Claims(inPlace, moved) {
      ClaimOrigin(inPlace, moved, a);
    }
  }

  ghost predicate SectionDown(schema: Schema, c: Path) {
    forall u :: u != [] && u <= c ==> schema.IsSection(schema.Canon(u))
  }

  /** Claims and sections that follow the schema's split into sections and values. */
  ghost predicate Shaped(schema: Schema, claims: map<Path, Value>, sections: set<Path>) {
    && (forall a :: a in claims ==>
          a != [] && Rooted(schema, a) && (schema.IsSection(schema.Canon(a)) ==> !claims[a].Object?))
    && (forall c :: c in sections ==> SectionDown(schema, c))
  }

  lemma DocumentFits(schema: Schema, entries: seq<Entry>)
    requires IsDocument(schema, entries)
    ensures Fits(schema, DocumentClaims(schema, entries), DocumentSections(schema, entries))
    ensures Shaped(schema, DocumentClaims(schema, entries), DocumentSections(schema, entries))
  {
    forall a | a in DocumentClaims(schema, entries) { ClaimFits(schema, entries, a); }
    forall a | a in DocumentClaims(schema, entries) && DocumentClaims(schema, entries)[a] == Null {
      NullFits(schema, entries, a);
    }
    forall c | c in DocumentSections(schema, entries)
      ensures CanonicalSection(schema, c) && SectionDown(schema, c)
    {
      var s :| s in Sections(entries, []) && schema.Canon(s) == c;
      SectionsNamed(schema, entries, s);
    }
  }

  lemma BelowScalar(root: map<string, Value>, claims: map<Path, Value>, sections: set<Path>, a: Path, p: Path)
    requires Holds(root, claims, sections) && Antichain(claims) && a in claims && a <= p && !claims[a].Object?
    ensures if a == p then ShapeAt(Object(root), p).Scalar? else ShapeAt(Object(root), p) == Absent
  {}

  lemma OpenIsSection(schema: Schema, claims: map<Path, Value>, sections: set<Path>, b: Path)
    requires Shaped(schema, claims, sections) && b != []
    ensures Above(claims, b) || Opens(sections, b) ==> schema.IsSection(schema.Canon(b))
  {}

  /** In a tree that follows the schema's split, a value stands alone: it is one of the claims. */
  lemma ValueIsClaim(schema: Schema, root: map<string, Value>, claims: map<Path, Value>, sections: set<Path>, b: Path, x: Value)
    requires Holds(root, claims, sections) && Antichain(claims) && Shaped(schema, claims, sections)
    requires b != [] && Rooted(schema, b) && (schema.IsSection(schema.Canon(b)) ==> !x.Object?)
    requires At(Object(root), b) == Some(x)
    ensures b in claims && claims[b] == x
  {
    assert ShapeAt(Object(root), b) == Shown(claims, sections, b);
    OpenIsSection(schema, claims, sections, b);
    if Under(claims, b) {
      var a := Owner(claims, b);
      assert a != b ==> a < b && schema.IsSection(schema.Canon(a));
      ClaimReadsBack(root, claims, sections, a);
      if !claims[a].Object? {
        BelowScalar(root, claims, sections, a, b);
      }
    }
  }

  lemma WrittenShaped(schema: Schema, entries: seq<Entry>)
    requires IsDocument(schema, entries)
    ensures Shaped(schema, ValueMap(Values(entries, [])), Elements(Sections(entries, [])))
  {
    ValueMapMembers(schema, entries);
    ValuesNamed(schema, entries);
    var all := ValueMap(Values(entries, []));
    forall a | a in all ensures Rooted(schema, a) && (schema.IsSection(schema.Canon(a)) ==> !all[a].Object?) {
      assert Placed(a, all[a]) in Values(entries, []);
    }
    forall c | c in Elements(Sections(entries, [])) ensures SectionDown(schema, c) {
      SectionLies(schema, entries, [], c);
    }
  }

  /** Two descriptions of one tree that both follow the schema have the same claims. */
  lemma SameClaims(schema: Schema, root: map<string, Value>, c1: map<Path, Value>, s1: set<Path>, c2: map<Path, Value>, s2: set<Path>)
    requires Holds(root, c1, s1) && Antichain(c1) && Shaped(schema, c1, s1)
    requires Holds(root, c2, s2) && Antichain(c2) && Shaped(schema, c2, s2)
    ensures c1 == c2
  {
    forall a | a in c1 ensures a in c2 && c2[a] == c1[a] {
      ClaimReadsBack(root, c1, s1, a);
      ValueIsClaim(schema, root, c2, s2, a, c1[a]);
    }
    forall a | a in c2 ensures a in c1 {
      ClaimReadsBack(root, c2, s2, a);
      ValueIsClaim(schema, root, c1, s1, a, c2[a]);
    }
  }

  /** A section of the tree is no claim's place. */
  lemma SectionIsOpen(schema: Schema, root: map<string, Value>, claims: map<Path, Value>, sections: set<Path>, s: Path)
    requires Holds(root, claims, sections) && Antichain(claims) && Shaped(schema, claims, sections)
    requires s != [] && schema.IsSection(schema.Canon(s)) && Rooted(schema, s)
    requires ShapeAt(Object(root), s) == Branch
    ensures Above(claims, s) || Opens(sections, s)
  {
    assert ShapeAt(Object(root), s) == Shown(claims, sections, s);
    if Under(claims, s) {
      var a := Owner(claims, s);
      assert a == s || a < s;
      assert schema.IsSection(schema.Canon(a));
      BelowScalar(root, claims, sections, a, s);
    }
  }

  lemma CanonicalPlace(schema: Schema, root: map<string, Value>, claims: map<Path, Value>, sections: set<Path>, c: Path)
    requires Holds(root, claims, sections) && Antichain(claims) && Fits(schema, claims, sections)
    requires c in sections
    ensures ShapeAt(Object(root), c) == Branch || Guarded(claims, c)
  {}

  /** A section above a claim is written canonically, or was a section of the document. */
  lemma SectionAboveClaim(schema: Schema, entries: seq<Entry>, s: Path)
    requires IsDocument(schema, entries) && s != [] && Above(DocumentClaims(schema, entries), s)
    ensures schema.Canon(s) == s || schema.Canon(s) in DocumentSections(schema, entries)
  {
    var a :| a in DocumentClaims(schema, entries) && s < a;
    var v := ClaimSource(schema, entries, a);
    ValuesNamed(schema, entries);
    if schema.Stays(v.path) {
      AncestorIsSection(schema, entries, [], v, s);
      CanonicalMember(schema, Sections(entries, []), s);
    } else {
      MovedBelowCanonical(schema, v.path, s);
    }
  }

  /** What a section of the resolved tree, read again, can be. */
  lemma SectionSettled(schema: Schema, root: map<string, Value>, claims: map<Path, Value>, sections: set<Path>, s: Path)
    requires Holds(root, claims, sections) && Antichain(claims)
    requires Shaped(schema, claims, sections) && Fits(schema, claims, sections)
    requires s != [] && schema.IsSection(schema.Canon(s)) && Rooted(schema, s)
    requires ShapeAt(Object(root), s) == Branch
    requires Above(claims, s) ==> schema.Canon(s) == s || schema.Canon(s) in sections
    ensures ShapeAt(Object(root), schema.Canon(s)) == Branch || Guarded(claims, schema.Canon(s))
    ensures schema.Canon(s) == s || Above(claims, s)
  {
    SectionIsOpen(schema, root, claims, sections, s);
    if Opens(sections, s) {
      var c :| c in sections && s <= c;
      assert CanonicalSection(schema, c);
    } else if schema.Canon(s) != s {
      CanonicalPlace(schema, root, claims, sections, schema.Canon(s));
    }
  }

  lemma CanonicalMember(schema: Schema, paths: seq<Path>, s: Path)
    requires s in paths
    ensures schema.Canon(s) in Elements(Canonical(schema, paths))
  {
    var i :| 0 <= i < |paths| && paths[i] == s;
    assert Canonical(schema, paths)[i] == schema.Canon(s);
  }

  /** Reading a resolved tree again gives a settled document. */
  lemma ReadAgain(schema: Schema, first: seq<Entry>, second: seq<Entry>, s: Path)
    requires IsDocument(schema, first) && IsDocument(schema, second)
    requires FieldsAsWritten(second) == Resolve(schema, first) && s in Sections(second, [])
    ensures
      var root, claims := Object(Resolve(schema, first)), DocumentClaims(schema, first);
      && (ShapeAt(root, schema.Canon(s)) == Branch || Guarded(claims, schema.Canon(s)))
      && (schema.Canon(s) == s || Above(claims, s))
  {
    SectionLies(schema, second, [], s);
    SectionWritten(schema, second, [], s);
    assert s[0..] == s;
    ResolveHolds(schema, first);
    DocumentFits(schema, first);
    if Above(DocumentClaims(schema, first), s) {
      SectionAboveClaim(schema, first, s);
    }
    SectionSettled(schema, Resolve(schema, first), DocumentClaims(schema, first), DocumentSections(schema, first), s);
  }

  lemma ReadAgainClaims(schema: Schema, first: seq<Entry>, second: seq<Entry>)
    requires IsDocument(schema, first) && IsDocument(schema, second)
    requires FieldsAsWritten(second) == Resolve(schema, first)
    ensures ValueMap(Values(second, [])) == DocumentClaims(schema, first)
  {
    ResolveHolds(schema, first);
    DocumentFits(schema, first);
    AsWrittenHolds(schema, second);
    ValueMapMembers(schema, second);
    WrittenShaped(schema, second);
    SameClaims(schema, Resolve(schema, first), DocumentClaims(schema, first), DocumentSections(schema, first),
               ValueMap(Values(second, [])), Elements(Sections(second, [])));
  }

  /** Resolving is idempotent: any document that reads as the resolved tree resolves to that tree again. */
  lemma ResolveTwice(schema: Schema, first: seq<Entry>, second: seq<Entry>)
    requires IsDocument(schema, first) && IsDocument(schema, second)
    requires FieldsAsWritten(second) == Resolve(schema, first)
    ensures Resolve(schema, second) == Resolve(schema, first)
  {
    ReadAgainClaims(schema, first, second);
    forall v | v in Values(second, []) ensures schema.Stays(v.path) {
      ValueMapMembers(schema, second);
      ClaimFits(schema, first, v.path);
    }
    forall s | s in Sections(second, []) { ReadAgain(schema, first, second, s); }
    SettledResolves(schema, second);
  }

  ghost function KeysInOrder(keys: set<string>): (order: seq<string>)
    ensures forall i, j :: 0 <= i < j < |order| ==> order[i] != order[j]
    ensures forall k :: k in order <==> k in keys
  {
    if keys == {} then []
    else
      var k :| k in keys;
      KeysInOrder(keys - {k}) + [k]
  }

  /** A tree read as a document, its maps in some order. */
  ghost function Reread(schema: Schema, v: Value, w: Path): Node
    decreases v
  {
    if v.Object? && (w == [] || schema.IsSection(schema.Canon(w))) then
      var keys := KeysInOrder(v.fields.Keys);
      Section(seq(|keys|, i requires 0 <= i < |keys| => Entry(keys[i], Reread(schema, v.fields[keys[i]], w + [keys[i]]))))
    else Held(v)
  }

  /** Entries under the keys of a map, each holding its value there, are that map. */
  lemma EntriesOfMap(entries: seq<Entry>, keys: seq<string>, fields: map<string, Value>)
    requires |entries| == |keys| && DistinctKeys(entries) && (forall k :: k in keys <==> k in fields)
    requires forall i :: 0 <= i < |keys| ==> entries[i].key == keys[i] && keys[i] in fields && AsWritten(entries[i].node) == fields[keys[i]]
    ensures FieldsAsWritten(entries) == fields
  {
    forall k | k in FieldsAsWritten(entries) ensures k in fields {
      var i := WrittenField(entries, k);
    }
    forall k | k in fields ensures k in FieldsAsWritten(entries) && FieldsAsWritten(entries)[k] == fields[k] {
      var i :| 0 <= i < |keys| && keys[i] == k;
      FieldWritten(entries, i);
    }
  }

  /** Every tree can be read as a document, and reads as itself. */
  lemma {:induction false} RereadAsWritten(schema: Schema, v: Value, w: Path)
    requires w == [] ==> v.Object?
    ensures WellRead(schema, Reread(schema, v, w), w)
    ensures AsWritten(Reread(schema, v, w)) == v
    decreases v
  {
    var node := Reread(schema, v, w);
    if node.Section? {
      var keys := KeysInOrder(v.fields.Keys);
      forall i | 0 <= i < |keys|
        ensures WellRead(schema, node.entries[i].node, w + [keys[i]])
        ensures AsWritten(node.entries[i].node) == v.fields[keys[i]]
      {
        RereadAsWritten(schema, v.fields[keys[i]], w + [keys[i]]);
      }
      EntriesOfMap(node.entries, keys, v.fields);
    }
  }

  /** Resolving a resolved tree gives it back. */
  lemma ResolveIdempotent(schema: Schema, entries: seq<Entry>)
    requires IsDocument(schema, entries)
    ensures
      var again := Reread(schema, Object(Resolve(schema, entries)), []);
      again.Section? && Resolve(schema, again.entries) == Resolve(schema, entries)
  {
    var again := Reread(schema, Object(Resolve(schema, entries)), []);
    RereadAsWritten(schema, Object(Resolve(schema, entries)), []);
    ResolveTwice(schema, entries, again.entries);
  }

  // ---------- the order of a map's entries ----------

  /** Every entry of `a`, at every depth, is in `b` under the same keys. */
  ghost predicate Within(a: Node, b: Node)
    decreases a
  {
    match a
    case Held(value) => b == a
    case Section(entries) =>
      b.Section? &&
      forall i :: 0 <= i < |entries| ==>
        exists j :: 0 <= j < |b.entries| && b.entries[j].key == entries[i].key && Within(entries[i].node, b.entries[j].node)
  }

  /** The same document with the entries of any of its maps in another order. */
  ghost predicate Rearranged(a: Node, b: Node) {
    Within(a, b) && Within(b, a)
  }

  lemma {:induction false} ValueWithin(a: seq<Entry>, b: seq<Entry>, w: Path, v: Placed)
    requires Within(Section(a), Section(b)) && v in Values(a, w)
    ensures v in Values(b, w)
    decreases a
  {
    var i := ValueEntry(a, w, v);
    var j :| 0 <= j < |b| && b[j].key == a[i].key && Within(a[i].node, b[j].node);
    if a[i].node.Section? {
      ValueWithin(a[i].node.entries, b[j].node.entries, w + [a[i].key], v);
    }
    EntryValue(b, w, j, v);
  }

  lemma {:induction false} SectionWithin(a: seq<Entry>, b: seq<Entry>, w: Path, s: Path)
    requires Within(Section(a), Section(b)) && s in Sections(a, w)
    ensures s in Sections(b, w)
    decreases a
  {
    var i := SectionEntry(a, w, s);
    var j :| 0 <= j < |b| && b[j].key == a[i].key && Within(a[i].node, b[j].node);
    if s in Sections(a[i].node.entries, w + [a[i].key]) {
      SectionWithin(a[i].node.entries, b[j].node.entries, w + [a[i].key], s);
    }
    EntrySection(b, w, j, s);
  }

  lemma RearrangedNodes(a: seq<Entry>, b: seq<Entry>)
    requires Rearranged(Section(a), Section(b))
    ensures forall v :: v in Values(a, []) <==> v in Values(b, [])
    ensures forall s :: s in Sections(a, []) <==> s in Sections(b, [])
  {
    forall v | v in Values(a, []) ensures v in Values(b, []) { ValueWithin(a, b, [], v); }
    forall v | v in Values(b, []) ensures v in Values(a, []) { ValueWithin(b, a, [], v); }
    forall s | s in Sections(a, []) ensures s in Sections(b, []) { SectionWithin(a, b, [], s); }
    forall s | s in Sections(b, []) ensures s in Sections(a, []) { SectionWithin(b, a, [], s); }
  }

  /** Nothing in place decides what `t` holds: no value is there, and none above it. */
  ghost predicate Open(inPlace: seq<Placed>, t: Path) {
    LastAt(inPlace, t).None? && !Shadowed(inPlace, t)
  }

  ghost predicate Respelled(schema: Schema, entries: seq<Entry>, v: Placed) {
    v in Values(entries, []) && !schema.Stays(v.path) && v.value != Null
  }

  /** No two respellings of different values are meant for a place that is open. */
  ghost predicate NoContest(schema: Schema, entries: seq<Entry>) {
    forall v, v' :: Respelled(schema, entries, v) && Respelled(schema, entries, v') && schema.Target(v.path) == schema.Target(v'.path) ==>
                      v.value == v'.value || !Open(InPlace(schema, Values(entries, [])), schema.Target(v.path))
  }

  ghost predicate OneAt(placed: seq<Placed>, t: Path) {
    forall m, m' :: m in placed && m' in placed && m.path == m'.path == t ==> m == m'
  }

  /** Where a place has one value, which comes last does not matter. */
  lemma LastAtOfSet(a: seq<Placed>, b: seq<Placed>, t: Path)
    requires forall m :: m in a <==> m in b
    requires OneAt(a, t)
    ensures LastAt(a, t) == LastAt(b, t)
  {
    LastAtFound(a, t);
    LastAtFound(b, t);
    SamePaths(a, b);
    if LastAt(a, t).Some? {
      var i :| 0 <= i < |a| && a[i].path == t && a[i].value == LastAt(a, t).value;
      var j :| 0 <= j < |b| && b[j].path == t && b[j].value == LastAt(b, t).value;
      assert a[i] in a && b[j] in a;
    }
  }

  lemma SamePaths(a: seq<Placed>, b: seq<Placed>)
    requires forall m :: m in a <==> m in b
    ensures PathsOf(a) == PathsOf(b)
  {
    forall p | p in PathsOf(a) ensures p in PathsOf(b) {
      var i :| 0 <= i < |a| && a[i].path == p;
      assert a[i] in a;
      var j :| 0 <= j < |b| && b[j] == a[i];
      assert b[j].path in PathsOf(b);
    }
    forall p | p in PathsOf(b) ensures p in PathsOf(a) {
      var i :| 0 <= i < |b| && b[i].path == p;
      assert b[i] in b;
      var j :| 0 <= j < |a| && a[j] == b[i];
      assert a[j].path in PathsOf(a);
    }
  }

  lemma ClaimsOfSets(in1: seq<Placed>, mv1: seq<Placed>, in2: seq<Placed>, mv2: seq<Placed>)
    requires forall t :: LastAt(in1, t) == LastAt(in2, t)
    requires forall t :: Open(in1, t) ==> LastAt(mv1, t) == LastAt(mv2, t)
    ensures Claims(in1, mv1) == Claims(in2, mv2)
  {
    ClaimsDomain(in1, mv1);
    ClaimsDomain(in2, mv2);
    forall t ensures Claim(in1, mv1, t) == Claim(in2, mv2, t) {
      ShadowedBySet(in1, in2, t);
    }
  }

  lemma ShadowedBySet(a: seq<Placed>, b: seq<Placed>, t: Path)
    requires forall u :: LastAt(a, u) == LastAt(b, u)
    ensures Shadowed(a, t) <==> Shadowed(b, t)
  {
    forall u ensures u in PathsOf(a) <==> u in PathsOf(b) {
      LastAtFound(a, u);
      LastAtFound(b, u);
    }
    if Shadowed(a, t) {
      var i :| 0 <= i < |a| && a[i].path < t;
      assert a[i].path in PathsOf(a);
    }
    if Shadowed(b, t) {
      var i :| 0 <= i < |b| && b[i].path < t;
      assert b[i].path in PathsOf(b);
    }
  }

  lemma MemberOfSet(schema: Schema, va: seq<Placed>, vb: seq<Placed>, m: Placed)
    requires forall v :: v in va ==> v in vb
    ensures m in InPlace(schema, va) ==> m in InPlace(schema, vb)
    ensures m in Moved(schema, va) ==> m in Moved(schema, vb)
    ensures m.path in Nulls(schema, va) ==> m.path in Nulls(schema, vb)
  {
    GatheredMembers(schema, va);
    GatheredMembers(schema, vb);
  }

  lemma GatheredOfSet(schema: Schema, va: seq<Placed>, vb: seq<Placed>)
    requires forall v :: v in va <==> v in vb
    ensures forall v :: v in InPlace(schema, va) <==> v in InPlace(schema, vb)
    ensures forall m :: m in Moved(schema, va) <==> m in Moved(schema, vb)
    ensures Elements(Nulls(schema, va)) == Elements(Nulls(schema, vb))
  {
    forall m ensures m in InPlace(schema, va) <==> m in InPlace(schema, vb)
      ensures m in Moved(schema, va) <==> m in Moved(schema, vb)
    {
      MemberOfSet(schema, va, vb, m);
      MemberOfSet(schema, vb, va, m);
    }
    forall n ensures n in Nulls(schema, va) <==> n in Nulls(schema, vb) {
      MemberOfSet(schema, va, vb, Placed(n, Null));
      MemberOfSet(schema, vb, va, Placed(n, Null));
    }
    ElementsOfSet(Nulls(schema, va), Nulls(schema, vb));
  }

  lemma ElementsOfSet(a: seq<Path>, b: seq<Path>)
    requires forall p :: p in a <==> p in b
    ensures Elements(a) == Elements(b)
  {
    forall p ensures p in Elements(a) <==> p in a {}
    forall p ensures p in Elements(b) <==> p in b {}
  }

  lemma CanonicalOfSet(schema: Schema, a: seq<Path>, b: seq<Path>)
    requires forall s :: s in a <==> s in b
    ensures Elements(Canonical(schema, a)) == Elements(Canonical(schema, b))
  {
    forall c | c in Elements(Canonical(schema, a)) ensures c in Elements(Canonical(schema, b)) {
      var s :| s in a && schema.Canon(s) == c;
      CanonicalMember(schema, b, s);
    }
    forall c | c in Elements(Canonical(schema, b)) ensures c in Elements(Canonical(schema, a)) {
      var s :| s in b && schema.Canon(s) == c;
      CanonicalMember(schema, a, s);
    }
  }

  lemma MovedOneAt(schema: Schema, entries: seq<Entry>, t: Path)
    requires NoContest(schema, entries) && Open(InPlace(schema, Values(entries, [])), t)
    ensures OneAt(Moved(schema, Values(entries, [])), t)
  {
    var values := Values(entries, []);
    GatheredMembers(schema, values);
    forall m, m' | m in Moved(schema, values) && m' in Moved(schema, values) && m.path == m'.path == t ensures m == m' {
      var v :| v in values && !schema.Stays(v.path) && v.value != Null && m == Placed(schema.Target(v.path), v.value);
      var v' :| v' in values && !schema.Stays(v'.path) && v'.value != Null && m' == Placed(schema.Target(v'.path), v'.value);
      assert Respelled(schema, entries, v) && Respelled(schema, entries, v');
    }
  }

  lemma InPlaceOneAt(inPlace: seq<Placed>, t: Path)
    requires InPlaceApart(inPlace)
    ensures OneAt(inPlace, t)
  {}

  lemma RearrangedClaims(schema: Schema, a: seq<Entry>, b: seq<Entry>)
    requires IsDocument(schema, a) && NoContest(schema, a)
    requires forall v :: v in Values(a, []) <==> v in Values(b, [])
    ensures Claims(InPlace(schema, Values(a, [])), Moved(schema, Values(a, [])))
         == Claims(InPlace(schema, Values(b, [])), Moved(schema, Values(b, [])))
  {
    var va, vb := Values(a, []), Values(b, []);
    GatheredOfSet(schema, va, vb);
    DocumentCoherent(schema, a);
    forall t ensures LastAt(InPlace(schema, va), t) == LastAt(InPlace(schema, vb), t)
      ensures Open(InPlace(schema, va), t) ==> LastAt(Moved(schema, va), t) == LastAt(Moved(schema, vb), t)
    {
      InPlaceOneAt(InPlace(schema, va), t);
      LastAtOfSet(InPlace(schema, va), InPlace(schema, vb), t);
      if Open(InPlace(schema, va), t) {
        MovedOneAt(schema, a, t);
        LastAtOfSet(Moved(schema, va), Moved(schema, vb), t);
      }
    }
    ClaimsOfSets(InPlace(schema, va), Moved(schema, va), InPlace(schema, vb), Moved(schema, vb));
  }

  /** Unless two respellings compete for one open place, the order in which a map's entries are written makes
      no difference. */
  lemma OrderDoesNotMatter(schema: Schema, a: seq<Entry>, b: seq<Entry>)
    requires IsDocument(schema, a) && IsDocument(schema, b)
    requires Rearranged(Section(a), Section(b)) && NoContest(schema, a)
    ensures Resolve(schema, a) == Resolve(schema, b)
  {
    RearrangedNodes(a, b);
    RearrangedClaims(schema, a, b);
    GatheredOfSet(schema, Values(a, []), Values(b, []));
    CanonicalOfSet(schema, Sections(a, []), Sections(b, []));
    ResolveHolds(schema, a);
    ResolveHolds(schema, b);
    SameHolds(Resolve(schema, a), Resolve(schema, b), DocumentClaims(schema, a),
              DocumentSections(schema, a), DocumentSections(schema, b));
  }
}
