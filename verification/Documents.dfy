/** Documents read against the Datadog schema: sections, the values they hold, and the place each value
    resolves to. */
module Documents {
  import opened Wrappers
  import opened Json
  import opened Resolution
  import opened Collisions

  datatype PathKind = LeafPath | SectionPath

  /** The modelled leaf paths, and the case folding applied to a written key. */
  datatype Schema = Schema(lower: string -> string, leaves: set<Path>) {

    /** What the repository checks of its schema: every leaf path is nonempty, no leaf path descends
        through another, and every segment is dotless and fixed by lowercasing. */
    ghost predicate Valid() {
      && (forall l :: l in leaves ==> l != [])
      && (forall l, m :: l in leaves && m in leaves ==> !(l < m))
      && (forall l, i :: l in leaves && 0 <= i < |l| ==> '.' !in l[i] && lower(l[i]) == l[i])
    }

    function Kind(path: Path): Option<PathKind> {
      if path in leaves then Some(LeafPath)
      else if path != [] && exists l :: l in leaves && path < l then Some(SectionPath)
      else None
    }

    predicate IsSection(path: Path) {
      Kind(path) == Some(SectionPath)
    }

    /** Where the Agent looks for a key met in a section. */
    function CanonicalPath(section: Path, key: string): Path {
      section + Split(lower(key))
    }

    /** The canonical path of a whole written path. */
    function Canon(written: Path): Path {
      if written == [] then []
      else CanonicalPath(Canon(written[..|written| - 1]), written[|written| - 1])
    }

    /** Where a value goes that is written under `key` in the map at `written`, which stands for the
        section at `section`. */
    function Destination(section: Path, written: Path, key: string): Path {
      match Kind(CanonicalPath(section, key))
      case Some(LeafPath) => CanonicalPath(section, key)
      case Some(SectionPath) => written + [key]
      case None => section + [key]
    }

    /** Where the value written at `written` is meant to go. */
    function Target(written: Path): Path {
      if written == [] then []
      else
        var n := |written| - 1;
        Destination(Canon(written[..n]), written[..n], written[n])
    }

    predicate Stays(written: Path) {
      Target(written) == written
    }
  }

  /** A map that stands for a section, keys unchanged, or a value held whole. */
  datatype Node = Section(entries: seq<Entry>) | Held(value: Value)
  datatype Entry = Entry(key: string, node: Node)

  // ---------- the nodes of a document ----------

  /** Every held value under its written path, in document order. */
  function Values(entries: seq<Entry>, written: Path): seq<Placed>
    decreases entries
  {
    if entries == [] then []
    else
      var n := |entries| - 1;
      Values(entries[..n], written) + NodeValues(entries[n].node, written + [entries[n].key])
  }

  function NodeValues(node: Node, written: Path): seq<Placed>
    decreases node
  {
    match node
    case Held(value) => [Placed(written, value)]
    case Section(entries) => Values(entries, written)
  }

  /** The written path of every section, each after the sections inside it. */
  function Sections(entries: seq<Entry>, written: Path): seq<Path>
    decreases entries
  {
    if entries == [] then []
    else
      var n := |entries| - 1;
      Sections(entries[..n], written) + NodeSections(entries[n].node, written + [entries[n].key])
  }

  function NodeSections(node: Node, written: Path): seq<Path>
    decreases node
  {
    match node
    case Held(_) => []
    case Section(entries) => Sections(entries, written) + [written]
  }

  ghost predicate DistinctKeys(entries: seq<Entry>) {
    forall i, j :: 0 <= i < j < |entries| ==> entries[i].key != entries[j].key
  }

  /** What reading guarantees: exactly the maps at section paths are sections, and no map has a key twice. */
  ghost predicate WellRead(schema: Schema, node: Node, written: Path)
    decreases node
  {
    match node
    case Held(value) => schema.IsSection(schema.Canon(written)) ==> !value.Object?
    case Section(entries) =>
      && (written == [] || schema.IsSection(schema.Canon(written)))
      && DistinctKeys(entries)
      && forall i :: 0 <= i < |entries| ==> WellRead(schema, entries[i].node, written + [entries[i].key])
  }

  // ---------- canonical paths ----------

  lemma {:induction false} CanonFixed(schema: Schema, p: Path, l: Path)
    requires schema.Valid() && l in schema.leaves && p <= l
    ensures schema.Canon(p) == p
  {
    if p != [] {
      var n := |p| - 1;
      CanonFixed(schema, p[..n], l);
      assert p[n] == l[n];
      assert p == p[..n] + [p[n]];
    }
  }

  lemma SectionFixed(schema: Schema, s: Path, u: Path)
    requires schema.Valid() && schema.IsSection(s) && u <= s
    ensures schema.Canon(u) == u
    ensures u != [] ==> schema.IsSection(u)
  {}

  /** Every proper ancestor of a written path is a section. */
  ghost predicate Rooted(schema: Schema, written: Path) {
    forall u :: u != [] && u < written ==> schema.IsSection(schema.Canon(u))
  }

  /** A target keeps the kind of the path it was written at, and lies below sections only. */
  lemma TargetKind(schema: Schema, w: Path, u: Path)
    requires schema.Valid() && w != [] && Rooted(schema, w)
    ensures schema.Target(w) != []
    ensures schema.Kind(schema.Canon(schema.Target(w))) == schema.Kind(schema.Canon(w))
    ensures u != [] && u < schema.Target(w) ==> schema.IsSection(schema.Canon(u))
  {
    var n := |w| - 1;
    var t := schema.Target(w);
    match schema.Kind(schema.Canon(w))
    case Some(LeafPath) =>
      CanonFixed(schema, t, t);
      if u != [] && u < t {
        CanonFixed(schema, u, t);
      }
    case Some(SectionPath) =>
    case None =>
      var parent := schema.Canon(w[..n]);
      assert t[..|t| - 1] == parent && t[|t| - 1] == w[n];
      if w[..n] != [] {
        assert w[..n] < w;
        SectionFixed(schema, parent, parent);
        if u != [] && u < t {
          assert u <= parent;
          SectionFixed(schema, parent, u);
        }
      }
  }

  /** A target is its own target. */
  lemma TargetStays(schema: Schema, w: Path)
    requires schema.Valid() && w != [] && Rooted(schema, w)
    ensures schema.Stays(schema.Target(w))
  {
    TargetKind(schema, w, []);
    var n, t := |w| - 1, schema.Target(w);
    match schema.Kind(schema.Canon(w))
    case Some(LeafPath) => CanonFixed(schema, t, t);
    case Some(SectionPath) =>
    case None =>
      var parent := schema.Canon(w[..n]);
      assert t[..|t| - 1] == parent && t[|t| - 1] == w[n];
      if w[..n] != [] {
        assert w[..n] < w;
        SectionFixed(schema, parent, parent);
      }
  }

  /** A respelled value moves below sections at their canonical paths. */
  lemma MovedBelowCanonical(schema: Schema, w: Path, u: Path)
    requires schema.Valid() && w != [] && Rooted(schema, w) && !schema.Stays(w) && u < schema.Target(w)
    ensures schema.Canon(u) == u
  {
    var n, t := |w| - 1, schema.Target(w);
    if schema.Kind(schema.Canon(w)) == Some(LeafPath) {
      CanonFixed(schema, u, t);
    } else {
      var parent := schema.Canon(w[..n]);
      assert t[..|t| - 1] == parent;
      assert u <= parent;
      if w[..n] != [] {
        assert w[..n] < w;
        SectionFixed(schema, parent, u);
      }
    }
  }

  // ---------- where the nodes of a document lie ----------

  ghost predicate ValueBelow(schema: Schema, v: Placed, w: Path) {
    && w < v.path
    && (forall u :: w < u < v.path ==> schema.IsSection(schema.Canon(u)))
    && (schema.IsSection(schema.Canon(v.path)) ==> !v.value.Object?)
  }

  ghost predicate SectionBelow(schema: Schema, s: Path, w: Path) {
    && w < s
    && (forall u :: w < u <= s ==> schema.IsSection(schema.Canon(u)))
  }

  lemma {:induction false} ValueEntry(entries: seq<Entry>, w: Path, v: Placed) returns (i: nat)
    requires v in Values(entries, w)
    ensures i < |entries| && v in NodeValues(entries[i].node, w + [entries[i].key])
  {
    var n := |entries| - 1;
    if v in Values(entries[..n], w) {
      i := ValueEntry(entries[..n], w, v);
      assert entries[..n][i] == entries[i];
    } else {
      i := n;
    }
  }

  lemma {:induction false} EntryValue(entries: seq<Entry>, w: Path, i: nat, v: Placed)
    requires i < |entries| && v in NodeValues(entries[i].node, w + [entries[i].key])
    ensures v in Values(entries, w)
  {
    var n := |entries| - 1;
    if i < n {
      assert entries[..n][i] == entries[i];
      EntryValue(entries[..n], w, i, v);
    }
  }

  lemma {:induction false} SectionEntry(entries: seq<Entry>, w: Path, s: Path) returns (i: nat)
    requires s in Sections(entries, w)
    ensures i < |entries| && s in NodeSections(entries[i].node, w + [entries[i].key])
  {
    var n := |entries| - 1;
    if s in Sections(entries[..n], w) {
      i := SectionEntry(entries[..n], w, s);
      assert entries[..n][i] == entries[i];
    } else {
      i := n;
    }
  }

  lemma {:induction false} EntrySection(entries: seq<Entry>, w: Path, i: nat, s: Path)
    requires i < |entries| && s in NodeSections(entries[i].node, w + [entries[i].key])
    ensures s in Sections(entries, w)
  {
    var n := |entries| - 1;
    if i < n {
      assert entries[..n][i] == entries[i];
      EntrySection(entries[..n], w, i, s);
    }
  }

  lemma StepDown(w: Path, key: string, u: Path, p: Path)
    requires w < u <= p && w + [key] <= p
    ensures u == w + [key] || w + [key] < u
  {}

  lemma {:induction false} ValueLies(schema: Schema, entries: seq<Entry>, w: Path, v: Placed)
    requires WellRead(schema, Section(entries), w) && v in Values(entries, w)
    ensures ValueBelow(schema, v, w)
    decreases entries
  {
    var i := ValueEntry(entries, w, v);
    var node, w' := entries[i].node, w + [entries[i].key];
    if node.Section? {
      ValueLies(schema, node.entries, w', v);
    }
    forall u | w < u < v.path ensures schema.IsSection(schema.Canon(u)) {
      StepDown(w, entries[i].key, u, v.path);
    }
  }

  lemma {:induction false} SectionLies(schema: Schema, entries: seq<Entry>, w: Path, s: Path)
    requires WellRead(schema, Section(entries), w) && s in Sections(entries, w)
    ensures SectionBelow(schema, s, w)
    decreases entries
  {
    var i := SectionEntry(entries, w, s);
    var node, w' := entries[i].node, w + [entries[i].key];
    if s in Sections(node.entries, w') {
      SectionLies(schema, node.entries, w', s);
    }
    forall u | w < u <= s ensures schema.IsSection(schema.Canon(u)) {
      StepDown(w, entries[i].key, u, s);
    }
  }

  /** Every map a value is written inside is a section of the document. */
  lemma {:induction false} AncestorIsSection(schema: Schema, entries: seq<Entry>, w: Path, v: Placed, u: Path)
    requires WellRead(schema, Section(entries), w) && v in Values(entries, w) && w < u < v.path
    ensures u in Sections(entries, w)
    decreases entries
  {
    var i := ValueEntry(entries, w, v);
    var node, w' := entries[i].node, w + [entries[i].key];
    NodeBelow(schema, entries, w, i);
    StepDown(w, entries[i].key, u, v.path);
    if u != w' {
      AncestorIsSection(schema, node.entries, w', v, u);
    }
    EntrySection(entries, w, i, u);
  }

  lemma KeysDiverge(w: Path, k: string, k': string, p: Path, q: Path)
    requires w + [k] <= p && w + [k'] <= q && k != k'
    ensures !Comparable(p, q)
  {
    assert p[|w|] == k && q[|w|] == k';
  }

  /** Values lie at incomparable paths, and nothing is written for a section at or below a value. */
  lemma {:induction false} ValuesApart(schema: Schema, entries: seq<Entry>, w: Path, v: Placed, p: Path)
    requires WellRead(schema, Section(entries), w) && v in Values(entries, w)
    ensures forall v' :: v' in Values(entries, w) && v' != v ==> !Comparable(v.path, v'.path)
    ensures p in Sections(entries, w) ==> !(v.path <= p)
    decreases entries
  {
    var i := ValueEntry(entries, w, v);
    var node, w' := entries[i].node, w + [entries[i].key];
    NodeBelow(schema, entries, w, i);
    forall v' | v' in Values(entries, w) && v' != v ensures !Comparable(v.path, v'.path) {
      var j := ValueEntry(entries, w, v');
      NodeBelow(schema, entries, w, j);
      if i != j {
        KeysDiverge(w, entries[i].key, entries[j].key, v.path, v'.path);
      } else if node.Section? {
        ValuesApart(schema, node.entries, w', v, p);
      }
    }
    if p in Sections(entries, w) {
      var j := SectionEntry(entries, w, p);
      NodeBelow(schema, entries, w, j);
      if i != j {
        KeysDiverge(w, entries[i].key, entries[j].key, v.path, p);
      } else if p != w' {
        ValuesApart(schema, node.entries, w', v, p);
      } else {
        ValueLies(schema, node.entries, w', v);
      }
    }
  }

  lemma NodeBelow(schema: Schema, entries: seq<Entry>, w: Path, i: nat)
    requires WellRead(schema, Section(entries), w) && i < |entries|
    ensures forall v :: v in NodeValues(entries[i].node, w + [entries[i].key]) ==> w + [entries[i].key] <= v.path
    ensures forall s :: s in NodeSections(entries[i].node, w + [entries[i].key]) ==> w + [entries[i].key] <= s
  {
    var node, w' := entries[i].node, w + [entries[i].key];
    if node.Section? {
      forall v | v in Values(node.entries, w') ensures w' <= v.path { ValueLies(schema, node.entries, w', v); }
      forall s | s in Sections(node.entries, w') ensures w' <= s { SectionLies(schema, node.entries, w', s); }
    }
  }

  ghost predicate Apart(placed: seq<Placed>) {
    forall i, j :: 0 <= i < j < |placed| ==> !Comparable(placed[i].path, placed[j].path)
  }

  lemma ApartConcat(a: seq<Placed>, b: seq<Placed>)
    requires Apart(a) && Apart(b)
    requires forall x, y :: x in a && y in b ==> !Comparable(x.path, y.path)
    ensures Apart(a + b)
  {}

  lemma EntriesApart(schema: Schema, entries: seq<Entry>, w: Path, n: nat, a: Placed, b: Placed)
    requires WellRead(schema, Section(entries), w) && n < |entries|
    requires a in Values(entries[..n], w) && b in NodeValues(entries[n].node, w + [entries[n].key])
    ensures !Comparable(a.path, b.path)
  {
    var i := ValueEntry(entries[..n], w, a);
    assert entries[..n][i] == entries[i];
    NodeBelow(schema, entries, w, i);
    NodeBelow(schema, entries, w, n);
    KeysDiverge(w, entries[i].key, entries[n].key, a.path, b.path);
  }

  lemma {:induction false} ValuesInOrderApart(schema: Schema, entries: seq<Entry>, w: Path)
    requires WellRead(schema, Section(entries), w)
    ensures Apart(Values(entries, w))
    decreases entries
  {
    if entries != [] {
      var n := |entries| - 1;
      assert WellRead(schema, Section(entries[..n]), w);
      ValuesInOrderApart(schema, entries[..n], w);
      var init, last := Values(entries[..n], w), NodeValues(entries[n].node, w + [entries[n].key]);
      if entries[n].node.Section? {
        ValuesInOrderApart(schema, entries[n].node.entries, w + [entries[n].key]);
      }
      forall a, b | a in init && b in last ensures !Comparable(a.path, b.path) {
        EntriesApart(schema, entries, w, n, a, b);
      }
      ApartConcat(init, last);
    }
  }

  // ---------- gathering ----------

  /** The values that are in place, and not null. */
  function InPlace(schema: Schema, values: seq<Placed>): seq<Placed> {
    if values == [] then []
    else
      var n := |values| - 1;
      var v := values[n];
      InPlace(schema, values[..n]) + if schema.Stays(v.path) && v.value != Null then [v] else []
  }

  /** The values a respelling moves, at their targets. */
  function Moved(schema: Schema, values: seq<Placed>): seq<Placed> {
    if values == [] then []
    else
      var n := |values| - 1;
      var v := values[n];
      Moved(schema, values[..n]) +
      if !schema.Stays(v.path) && v.value != Null then [Placed(schema.Target(v.path), v.value)] else []
  }

  function Nulls(schema: Schema, values: seq<Placed>): seq<Path> {
    if values == [] then []
    else
      var n := |values| - 1;
      var v := values[n];
      Nulls(schema, values[..n]) + if schema.Stays(v.path) && v.value == Null then [v.path] else []
  }

  function Canonical(schema: Schema, paths: seq<Path>): seq<Path> {
    seq(|paths|, i requires 0 <= i < |paths| => schema.Canon(paths[i]))
  }

  lemma {:induction false} GatheredMembers(schema: Schema, values: seq<Placed>)
    ensures forall v :: v in InPlace(schema, values) <==> v in values && schema.Stays(v.path) && v.value != Null
    ensures forall n :: n in Nulls(schema, values) <==> Placed(n, Null) in values && schema.Stays(n)
    ensures forall m :: m in Moved(schema, values) <==>
              exists v :: v in values && !schema.Stays(v.path) && v.value != Null && m == Placed(schema.Target(v.path), v.value)
  {
    if values != [] {
      var n := |values| - 1;
      GatheredMembers(schema, values[..n]);
      assert values == values[..n] + [values[n]];
    }
  }

  lemma {:induction false} InPlaceGathered(schema: Schema, values: seq<Placed>)
    requires Apart(values) && forall v :: v in values ==> v.path != []
    ensures InPlaceApart(InPlace(schema, values))
  {
    if values != [] {
      var init, last := values[..|values| - 1], values[|values| - 1];
      InPlaceGathered(schema, init);
      GatheredMembers(schema, init);
      forall i | 0 <= i < |InPlace(schema, init)| ensures !Comparable(InPlace(schema, init)[i].path, last.path) {
        assert InPlace(schema, init)[i] in init;
      }
    }
  }

  lemma {:induction false} NullsGathered(schema: Schema, values: seq<Placed>)
    requires Apart(values) && forall v :: v in values ==> v.path != []
    ensures NullsApart(Nulls(schema, values))
  {
    if values != [] {
      var init, last := values[..|values| - 1], values[|values| - 1];
      NullsGathered(schema, init);
      GatheredMembers(schema, init);
      forall i | 0 <= i < |Nulls(schema, init)| ensures !Comparable(Nulls(schema, init)[i], last.path) {
        assert Nulls(schema, init)[i] in Nulls(schema, init);
        assert Placed(Nulls(schema, init)[i], Null) in init;
      }
    }
  }
}
