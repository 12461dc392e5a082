/** Where a written key goes, said of the key's own text: lowercased, and with dots for nesting. */
module Spellings {
  import opened Wrappers
  import opened Json
  import opened Resolution
  import opened Collisions
  import opened Documents
  import opened KeyResolution

  /** The dotted, lowercased key that a written path spells out. */
  function Name(schema: Schema, w: Path): string {
    Joined(seq(|w|, i requires 0 <= i < |w| => schema.lower(w[i])))
  }

  lemma {:induction false} NameLast(schema: Schema, w: Path)
    requires |w| > 1
    ensures Name(schema, w) == Name(schema, w[..|w| - 1]) + "." + schema.lower(w[|w| - 1])
  {
    var n := |w| - 1;
    var lowered := seq(|w|, i requires 0 <= i < |w| => schema.lower(w[i]));
    var init := seq(n, i requires 0 <= i < n => schema.lower(w[..n][i]));
    assert lowered == init + [lowered[n]];
    JoinedConcat(init, [lowered[n]]);
  }

  /** The canonical path of a written path is its name, split. */
  lemma {:induction false} CanonIsName(schema: Schema, w: Path)
    requires w != []
    ensures schema.Canon(w) == Split(Name(schema, w))
    ensures Joined(schema.Canon(w)) == Name(schema, w) && Dotless(schema.Canon(w))
    decreases |w|
  {
    var n := |w| - 1;
    if n > 0 {
      CanonIsName(schema, w[..n]);
      NameLast(schema, w);
      SplitConcat(Name(schema, w[..n]), schema.lower(w[n]));
    } else {
      assert w[..n] == [];
      assert schema.Canon(w) == [] + Split(schema.lower(w[0]));
    }
    JoinedSplit(Name(schema, w));
  }

  lemma {:induction false} LeafIsDotless(schema: Schema, l: Path)
    requires schema.Valid() && l in schema.leaves
    ensures Dotless(l) && Split(Joined(l)) == l
  {
    SplitJoined(l);
  }

  lemma {:induction false} OnWayToLeaf(schema: Schema, section: Path, key: string, l: Path)
    requires schema.Valid() && l in schema.leaves && section + [key] <= l
    ensures schema.CanonicalPath(section, key) == section + [key]
  {
    assert l[|section|] == key;
  }

  /** A path whose value goes to a setting, or above one, spells a setting or a section. */
  lemma {:induction false} TargetOnWayToLeaf(schema: Schema, w: Path, l: Path)
    requires schema.Valid() && l in schema.leaves && w != [] && schema.Target(w) <= l
    ensures schema.Target(w) == w || (schema.Target(w) == schema.Canon(w) && schema.Canon(w) in schema.leaves)
  {
    var n := |w| - 1;
    var section := schema.Canon(w[..n]);
    assert w[..n] + [w[n]] == w;
    if schema.Target(w) == section + [w[n]] {
      OnWayToLeaf(schema, section, w[n], l);
      assert schema.Canon(w) == schema.CanonicalPath(section, w[n]);
      assert schema.Canon(w) == l || schema.Canon(w) < l;
    }
  }

  /** A written path goes to a setting exactly if it spells that setting's key. */
  lemma {:induction false} GoesToLeafIff(schema: Schema, w: Path, l: Path)
    requires schema.Valid() && l in schema.leaves && w != []
    ensures schema.Target(w) == l <==> Name(schema, w) == Joined(l)
  {
    CanonIsName(schema, w);
    LeafIsDotless(schema, l);
    if schema.Target(w) == l {
      TargetOnWayToLeaf(schema, w, l);
      CanonFixed(schema, l, l);
    }
  }

  /** A written path goes above a setting exactly if it is written there. */
  lemma {:induction false} GoesAboveLeafIff(schema: Schema, w: Path, l: Path)
    requires schema.Valid() && l in schema.leaves && w != []
    ensures schema.Target(w) < l <==> w < l
  {
    assert w[..|w| - 1] + [w[|w| - 1]] == w;
    if schema.Target(w) < l {
      TargetOnWayToLeaf(schema, w, l);
    }
    if w < l {
      CanonFixed(schema, w, l);
      assert schema.IsSection(w);
    }
  }

  /** Some setting lies inside what `w` spells. */
  ghost predicate NamesSection(schema: Schema, w: Path) {
    exists l :: l in schema.leaves && Name(schema, w) + "." <= Joined(l)
  }

  ghost predicate NamesLeaf(schema: Schema, w: Path) {
    exists l :: l in schema.leaves && Name(schema, w) == Joined(l)
  }

  lemma {:induction false} KindByName(schema: Schema, w: Path)
    requires schema.Valid() && w != []
    ensures schema.Kind(schema.Canon(w)) == Some(LeafPath) <==> NamesLeaf(schema, w)
    ensures schema.IsSection(schema.Canon(w)) <==> NamesSection(schema, w)
  {
    CanonIsName(schema, w);
    forall l | l in schema.leaves
      ensures schema.Canon(w) == l <==> Name(schema, w) == Joined(l)
      ensures schema.Canon(w) < l <==> Name(schema, w) + "." <= Joined(l)
    {
      LeafIsDotless(schema, l);
      DottedPrefix(schema.Canon(w), l);
    }
  }

  /** A value that is not a map stays where it is written when its path spells a section. */
  lemma {:induction false} GoesNowhere(schema: Schema, w: Path)
    requires schema.Valid() && w != [] && NamesSection(schema, w)
    ensures schema.Target(w) == w
  {
    KindByName(schema, w);
    assert w[..|w| - 1] + [w[|w| - 1]] == w;
  }

  lemma {:induction false} SectionNamed(schema: Schema, w: Path, parent: Path)
    requires w != [] && Dotless(parent) && (|w| == 1 <==> parent == [])
    requires Joined(parent) == Name(schema, w[..|w| - 1])
    ensures schema.Canon(w[..|w| - 1]) == parent
  {
    var init := w[..|w| - 1];
    if init != [] {
      CanonIsName(schema, init);
      SplitJoined(parent);
    }
  }

  /** A key that spells neither a setting nor a section keeps its spelling, inside the lowercased path of the
      section it was written in. */
  lemma {:induction false} GoesWithSection(schema: Schema, w: Path, parent: Path)
    requires schema.Valid() && w != [] && !NamesLeaf(schema, w) && !NamesSection(schema, w)
    requires Dotless(parent) && (|w| == 1 <==> parent == []) && Joined(parent) == Name(schema, w[..|w| - 1])
    ensures schema.Target(w) == parent + [w[|w| - 1]]
  {
    KindByName(schema, w);
    SectionNamed(schema, w, parent);
  }

  // ---------- what a document's keys come to ----------

  lemma {:induction false} LastAtNext(placed: seq<Placed>, x: Placed, t: Path)
    ensures LastAt(placed + [x], t) == if x.path == t then Some(x.value) else LastAt(placed, t)
  {
    assert (placed + [x])[..|placed|] == placed;
  }

  /** The respelling that no later one is meant for the place of. */
  lemma {:induction false} LastMoved(schema: Schema, values: seq<Placed>, j: nat)
    requires j < |values| && !schema.Stays(values[j].path) && values[j].value != Null
    requires forall k :: j < k < |values| && values[k].value != Null ==> schema.Target(values[k].path) != schema.Target(values[j].path)
    ensures LastAt(Moved(schema, values), schema.Target(values[j].path)) == Some(values[j].value)
  {
    var n, t := |values| - 1, schema.Target(values[j].path);
    var v, before := values[n], Moved(schema, values[..n]);
    if j < n {
      LastMoved(schema, values[..n], j);
    }
    LastAtNext(before, Placed(schema.Target(v.path), v.value), t);
    assert before + [] == before;
  }

  lemma {:induction false} MovedListed(schema: Schema, values: seq<Placed>, v: Placed)
    requires v in values && !schema.Stays(v.path) && v.value != Null
    ensures schema.Target(v.path) in PathsOf(Moved(schema, values))
  {
    var moved := Moved(schema, values);
    GatheredMembers(schema, values);
    assert Placed(schema.Target(v.path), v.value) in moved;
    var i :| 0 <= i < |moved| && moved[i] == Placed(schema.Target(v.path), v.value);
    assert moved[i].path == schema.Target(v.path);
  }

  lemma {:induction false} NoneInPlace(schema: Schema, values: seq<Placed>, t: Path)
    requires forall u :: u in values && u.value != Null && schema.Stays(u.path) ==> !(u.path <= t)
    ensures LastAt(InPlace(schema, values), t) == None && !Shadowed(InPlace(schema, values), t)
  {
    var inPlace := InPlace(schema, values);
    GatheredMembers(schema, values);
    forall i | 0 <= i < |inPlace| ensures !(inPlace[i].path <= t) {
      assert inPlace[i] in inPlace;
    }
    LastAtFound(inPlace, t);
  }

  /** A value is at the place it is meant for if nothing is in place there or above, and nothing later in the
      document is meant for it. */
  lemma {:induction false} LastLands(schema: Schema, entries: seq<Entry>, j: nat)
    requires IsDocument(schema, entries) && j < |Values(entries, [])| && Values(entries, [])[j].value != Null
    requires
      var values, t := Values(entries, []), schema.Target(Values(entries, [])[j].path);
      && (forall u :: u in values && u != values[j] && u.value != Null && schema.Stays(u.path) ==> !(u.path <= t))
      && (forall k :: j < k < |values| && values[k].value != Null ==> schema.Target(values[k].path) != t)
    ensures At(Object(Resolve(schema, entries)), schema.Target(Values(entries, [])[j].path)) == Some(Values(entries, [])[j].value)
  {
    var values := Values(entries, []);
    var v := values[j];
    if schema.Stays(v.path) {
      InPlaceReadsBack(schema, entries, v);
    } else {
      NoneInPlace(schema, values, schema.Target(v.path));
      MovedListed(schema, values, v);
      LastMoved(schema, values, j);
      RespellingSettled(schema, entries, schema.Target(v.path));
    }
  }

  lemma {:induction false} ValuesOnce(schema: Schema, entries: seq<Entry>, i: nat, j: nat)
    requires IsDocument(schema, entries) && i < j < |Values(entries, [])|
    ensures Values(entries, [])[i] != Values(entries, [])[j]
  {
    ValuesInOrderApart(schema, entries, []);
  }

  /** A value with its place to itself is there, whatever spelling put it there. */
  lemma {:induction false} AloneLands(schema: Schema, entries: seq<Entry>, v: Placed)
    requires IsDocument(schema, entries) && v in Values(entries, []) && v.value != Null
    requires forall u :: u in Values(entries, []) && u != v && u.value != Null ==> !(schema.Target(u.path) <= schema.Target(v.path))
    ensures At(Object(Resolve(schema, entries)), schema.Target(v.path)) == Some(v.value)
  {
    var values := Values(entries, []);
    var j :| 0 <= j < |values| && values[j] == v;
    forall k | j < k < |values| && values[k].value != Null ensures schema.Target(values[k].path) != schema.Target(v.path) {
      ValuesOnce(schema, entries, j, k);
      assert values[k] in values;
    }
    LastLands(schema, entries, j);
  }

  /** A value whose path spells a setting's key, in any case and with any dots, is that setting's value, unless
      another value spells the same key or is written in place above it. */
  lemma {:induction false} SpelledLands(schema: Schema, entries: seq<Entry>, v: Placed, l: Path)
    requires IsDocument(schema, entries) && l in schema.leaves
    requires v in Values(entries, []) && v.value != Null && Name(schema, v.path) == Joined(l)
    requires forall u :: u in Values(entries, []) && u != v && u.value != Null ==> Name(schema, u.path) != Joined(l) && !(u.path < l)
    ensures At(Object(Resolve(schema, entries)), l) == Some(v.value)
  {
    ValuesNamed(schema, entries);
    GoesToLeafIff(schema, v.path, l);
    forall u | u in Values(entries, []) && u != v && u.value != Null ensures !(schema.Target(u.path) <= l) {
      GoesToLeafIff(schema, u.path, l);
      GoesAboveLeafIff(schema, u.path, l);
    }
    AloneLands(schema, entries, v);
  }

  ghost predicate Unknown(schema: Schema, w: Path) {
    w != [] && !NamesLeaf(schema, w) && !NamesSection(schema, w)
  }

  /** Two written paths end in one key, in sections of one name. */
  ghost predicate SameKey(schema: Schema, u: Path, w: Path)
    requires u != [] && w != []
  {
    && u[|u| - 1] == w[|w| - 1]
    && (|u| == 1 <==> |w| == 1)
    && Name(schema, u[..|u| - 1]) == Name(schema, w[..|w| - 1])
  }

  lemma {:induction false} SectionOf(schema: Schema, w: Path)
    requires schema.Valid() && w != [] && Rooted(schema, w)
    ensures
      var parent := schema.Canon(w[..|w| - 1]);
      && schema.Canon(parent) == parent
      && (parent == [] <==> |w| == 1)
      && (parent != [] ==> schema.IsSection(parent))
      && Joined(parent) == Name(schema, w[..|w| - 1])
  {
    var init := w[..|w| - 1];
    if init != [] {
      assert init < w;
      CanonIsName(schema, init);
      SectionFixed(schema, schema.Canon(init), schema.Canon(init));
    }
  }

  /** Only the same key, in a section of the same name, goes where an unknown key goes. */
  lemma {:induction false} SameTarget(schema: Schema, u: Path, w: Path)
    requires schema.Valid() && u != [] && Rooted(schema, u) && Rooted(schema, w) && Unknown(schema, w)
    requires schema.Target(u) == schema.Target(w)
    ensures SameKey(schema, u, w)
  {
    TargetKind(schema, u, []);
    TargetKind(schema, w, []);
    KindByName(schema, u);
    KindByName(schema, w);
    SectionOf(schema, u);
    SectionOf(schema, w);
    var s, t := schema.Canon(u[..|u| - 1]), schema.Canon(w[..|w| - 1]);
    assert (s + [u[|u| - 1]])[|s|] == (t + [w[|w| - 1]])[|t|];
    assert s == (s + [u[|u| - 1]])[..|s|] == t;
  }

  /** Only what is written at or above a section goes at or above it. */
  lemma {:induction false} GoesAboveUnknown(schema: Schema, u: Path, w: Path)
    requires schema.Valid() && u != [] && Rooted(schema, w) && Unknown(schema, w)
    requires schema.Target(u) < schema.Target(w)
    ensures u <= schema.Canon(w[..|w| - 1])
  {
    KindByName(schema, w);
    SectionOf(schema, w);
    var parent := schema.Canon(w[..|w| - 1]);
    assert schema.Target(w) == parent + [w[|w| - 1]];
    assert schema.Target(u) <= parent;
    if parent != [] {
      var l :| l in schema.leaves && parent < l;
      GoesAboveLeafIff(schema, u, l);
      TargetOnWayToLeaf(schema, u, l);
    }
  }

  /** A key that spells neither a setting nor a section is found, as spelled, at the lowercased path of the
      section it was written in, unless the same key is there twice or a value is written in place above it. */
  lemma {:induction false} UnknownLands(schema: Schema, entries: seq<Entry>, v: Placed, parent: Path)
    requires IsDocument(schema, entries) && v in Values(entries, []) && v.value != Null && Unknown(schema, v.path)
    requires Dotless(parent) && (|v.path| == 1 <==> parent == []) && Joined(parent) == Name(schema, v.path[..|v.path| - 1])
    requires forall u :: u in Values(entries, []) && u != v && u.value != Null ==>
                           u.path != [] && !SameKey(schema, u.path, v.path) && !(u.path <= parent)
    ensures At(Object(Resolve(schema, entries)), parent + [v.path[|v.path| - 1]]) == Some(v.value)
  {
    ValuesNamed(schema, entries);
    GoesWithSection(schema, v.path, parent);
    SectionNamed(schema, v.path, parent);
    forall u | u in Values(entries, []) && u != v && u.value != Null ensures !(schema.Target(u.path) <= schema.Target(v.path)) {
      if schema.Target(u.path) == schema.Target(v.path) {
        SameTarget(schema, u.path, v.path);
      } else if schema.Target(u.path) < schema.Target(v.path) {
        GoesAboveUnknown(schema, u.path, v.path);
      }
    }
    AloneLands(schema, entries, v);
  }

  // ---------- the order a document is written in ----------

  /** What is written at `p` comes before what is written at `q`. */
  ghost predicate Precedes(entries: seq<Entry>, p: Path, q: Path)
    decreases entries
  {
    && p != [] && q != []
    && exists i, j :: 0 <= i <= j < |entries| && entries[i].key == p[0] && entries[j].key == q[0] &&
                      (i < j || (entries[i].node.Section? && Precedes(entries[i].node.entries, p[1..], q[1..])))
  }

  /** Of two values written below `w`, the first comes before the second. */
  ghost predicate InOrder(entries: seq<Entry>, w: Path, x: Placed, y: Placed) {
    |w| < |x.path| && |w| < |y.path| && Precedes(entries, x.path[|w|..], y.path[|w|..])
  }

  lemma {:induction false} InOrderLonger(entries: seq<Entry>, n: nat, w: Path, x: Placed, y: Placed)
    requires n <= |entries| && InOrder(entries[..n], w, x, y)
    ensures InOrder(entries, w, x, y)
  {
    var init, p, q := entries[..n], x.path[|w|..], y.path[|w|..];
    var i, j :| 0 <= i <= j < n && init[i].key == p[0] && init[j].key == q[0] &&
                (i < j || (init[i].node.Section? && Precedes(init[i].node.entries, p[1..], q[1..])));
    assert entries[i] == init[i] && entries[j] == init[j];
  }

  lemma {:induction false} ValueKeyed(schema: Schema, entries: seq<Entry>, w: Path, v: Placed) returns (i: nat)
    requires WellRead(schema, Section(entries), w) && v in Values(entries, w)
    ensures i < |entries| && w + [entries[i].key] <= v.path
  {
    i := ValueEntry(entries, w, v);
    NodeBelow(schema, entries, w, i);
  }

  lemma {:induction false} NodeKeyed(schema: Schema, entries: seq<Entry>, w: Path, i: nat, v: Placed)
    requires WellRead(schema, Section(entries), w) && i < |entries|
    requires v in NodeValues(entries[i].node, w + [entries[i].key])
    ensures w + [entries[i].key] <= v.path
  {
    NodeBelow(schema, entries, w, i);
  }

  lemma {:induction false} InOrderAcross(schema: Schema, entries: seq<Entry>, w: Path, n: nat, x: Placed, y: Placed)
    requires WellRead(schema, Section(entries), w) && n < |entries|
    requires x in Values(entries[..n], w) && y in NodeValues(entries[n].node, w + [entries[n].key])
    ensures InOrder(entries, w, x, y)
  {
    assert WellRead(schema, Section(entries[..n]), w);
    var i := ValueKeyed(schema, entries[..n], w, x);
    NodeKeyed(schema, entries, w, n, y);
    assert x.path[|w|..][0] == entries[i].key && y.path[|w|..][0] == entries[n].key;
  }

  lemma {:induction false} InOrderWithin(entries: seq<Entry>, w: Path, i: nat, x: Placed, y: Placed)
    requires i < |entries| && w + [entries[i].key] <= x.path && w + [entries[i].key] <= y.path
    requires entries[i].node.Section? && InOrder(entries[i].node.entries, w + [entries[i].key], x, y)
    ensures InOrder(entries, w, x, y)
  {
    var p, q := x.path[|w|..], y.path[|w|..];
    assert p[0] == entries[i].key && q[0] == entries[i].key;
    assert p[1..] == x.path[|w| + 1..] && q[1..] == y.path[|w| + 1..];
  }

  lemma {:induction false} NodeInOrder(schema: Schema, entries: seq<Entry>, w: Path, i: nat, x: Placed, y: Placed)
    requires WellRead(schema, Section(entries), w) && i < |entries| && entries[i].node.Section?
    requires x in Values(entries[i].node.entries, w + [entries[i].key]) && y in Values(entries[i].node.entries, w + [entries[i].key])
    requires InOrder(entries[i].node.entries, w + [entries[i].key], x, y)
    ensures InOrder(entries, w, x, y)
  {
    NodeKeyed(schema, entries, w, i, x);
    NodeKeyed(schema, entries, w, i, y);
    InOrderWithin(entries, w, i, x, y);
  }

  lemma {:induction false} InConcat<T>(a: seq<T>, b: seq<T>, i: nat)
    requires i < |a| + |b|
    ensures (a + b)[i] == if i < |a| then a[i] else b[i - |a|]
  {}

  lemma {:induction false} InitWellRead(schema: Schema, entries: seq<Entry>, w: Path, n: nat)
    requires WellRead(schema, Section(entries), w) && n <= |entries|
    ensures WellRead(schema, Section(entries[..n]), w)
  {}

  /** Values are gathered in the order they are written in. */
  lemma {:induction false} GatheredInOrder(schema: Schema, entries: seq<Entry>, w: Path, a: nat, b: nat, x: Placed, y: Placed)
    requires WellRead(schema, Section(entries), w) && a < b < |Values(entries, w)|
    requires Values(entries, w)[a] == x && Values(entries, w)[b] == y
    ensures InOrder(entries, w, x, y)
    decreases entries
  {
    var n := |entries| - 1;
    var init, last := Values(entries[..n], w), NodeValues(entries[n].node, w + [entries[n].key]);
    var m := |init|;
    InConcat(init, last, a);
    InConcat(init, last, b);
    if b < m {
      InitWellRead(schema, entries, w, n);
      GatheredInOrder(schema, entries[..n], w, a, b, x, y);
      InOrderLonger(entries, n, w, x, y);
    } else if a < m {
      InOrderAcross(schema, entries, w, n, x, y);
    } else {
      GatheredInOrder(schema, entries[n].node.entries, w + [entries[n].key], a - m, b - m, x, y);
      NodeInOrder(schema, entries, w, n, x, y);
    }
  }

  /** Of several values that spell one setting's key, the one written last is the setting's value, unless
      a value is written in place at it or above it. */
  lemma {:induction false} LastSpellingLands(schema: Schema, entries: seq<Entry>, v: Placed, l: Path)
    requires IsDocument(schema, entries) && l in schema.leaves
    requires v in Values(entries, []) && v.value != Null && Name(schema, v.path) == Joined(l)
    requires forall u :: u in Values(entries, []) && u != v && u.value != Null ==> !(u.path <= l)
    requires forall u :: u in Values(entries, []) && u.value != Null && Name(schema, u.path) == Joined(l) ==>
                           !Precedes(entries, v.path, u.path)
    ensures At(Object(Resolve(schema, entries)), l) == Some(v.value)
  {
    var values := Values(entries, []);
    ValuesNamed(schema, entries);
    GoesToLeafIff(schema, v.path, l);
    var j :| 0 <= j < |values| && values[j] == v;
    forall k | j < k < |values| && values[k].value != Null ensures schema.Target(values[k].path) != l {
      var u := values[k];
      assert u in values;
      GoesToLeafIff(schema, u.path, l);
      GatheredInOrder(schema, entries, [], j, k, v, u);
      assert v.path[0..] == v.path && u.path[0..] == u.path;
    }
    LastLands(schema, entries, j);
  }
}
