/** Configuration layers: trees of sections and leaves, each leaf with the provenance of its value. */
module SourceTrees {
  import opened Wrappers
  import opened Json

  datatype Provenance = Default | Explicit

  datatype Node =
    | Section(children: map<string, Node>)
    | Leaf(value: Value, provenance: Provenance)

  const EMPTY := Section(map[])

  // ---------- reading ----------

  /** The node at `p`. Nothing is below a leaf. */
  function Get(n: Node, p: Path): Option<Node>
    decreases |p|
  {
    if p == [] then Some(n)
    else if n.Section? && p[0] in n.children then Get(n.children[p[0]], p[1..])
    else None
  }

  predicate HasExplicit(n: Node)
    decreases n
  {
    match n
    case Leaf(_, provenance) => provenance == Explicit
    case Section(children) => exists k :: k in children && HasExplicit(children[k])
  }

  function ToValue(n: Node): Value
    decreases n
  {
    match n
    case Leaf(value, _) => value
    case Section(children) => Object(map k | k in children :: ToValue(children[k]))
  }

  /** What one path of a layer shows. */
  datatype View = Nothing | Inner | Setting(leaf: Node)

  function ViewAt(n: Node, p: Path): View {
    match Get(n, p)
    case None => Nothing
    case Some(Section(_)) => Inner
    case Some(leaf) => Setting(leaf)
  }

  lemma GetCons(n: Node, k: string, p: Path)
    ensures Get(n, [k] + p) == if n.Section? && k in n.children then Get(n.children[k], p) else None
  {}

  /** A layer is determined by what it shows at every path. */
  lemma {:induction false} SameViews(a: Node, b: Node)
    requires forall p :: ViewAt(a, p) == ViewAt(b, p)
    ensures a == b
    decreases a
  {
    assert ViewAt(a, []) == ViewAt(b, []);
    if a.Section? {
      forall k ensures k in a.children <==> k in b.children
        ensures k in a.children ==> a.children[k] == b.children[k]
      {
        GetCons(a, k, []);
        GetCons(b, k, []);
        assert ViewAt(a, [k] + []) == ViewAt(b, [k] + []);
        if k in a.children {
          forall p ensures ViewAt(a.children[k], p) == ViewAt(b.children[k], p) {
            GetCons(a, k, p);
            GetCons(b, k, p);
            assert ViewAt(a, [k] + p) == ViewAt(b, [k] + p);
          }
          SameViews(a.children[k], b.children[k]);
        }
      }
      assert a.children == b.children;
    }
  }

  /** A node has something explicit exactly when an explicit leaf is at or beneath it. */
  lemma {:induction false} ExplicitSomewhere(n: Node)
    ensures HasExplicit(n) <==> exists p :: ExplicitLeafAt(n, p)
    decreases n
  {
    match n
    case Leaf(_, _) =>
      assert ExplicitLeafAt(n, []) <==> HasExplicit(n);
    case Section(children) =>
      forall k | k in children { ExplicitSomewhere(children[k]); }
      if HasExplicit(n) {
        var k :| k in children && HasExplicit(children[k]);
        var p :| ExplicitLeafAt(children[k], p);
        GetCons(n, k, p);
        assert ExplicitLeafAt(n, [k] + p);
      }
      if p :| ExplicitLeafAt(n, p) {
        assert p != [];
        assert ExplicitLeafAt(children[p[0]], p[1..]);
      }
  }

  predicate ExplicitLeafAt(n: Node, p: Path) {
    match Get(n, p)
    case Some(Leaf(_, provenance)) => provenance == Explicit
    case _ => false
  }

  // ---------- set ----------

  function ChildrenOf(n: Node): map<string, Node> {
    if n.Section? then n.children else map[]
  }

  function ChildOr(children: map<string, Node>, k: string): Node {
    if k in children then children[k] else EMPTY
  }

  /** `leaf` put at `p`: a leaf on the way is replaced by a section. */
  function Set(n: Node, p: Path, leaf: Node): Node
    decreases |p|
  {
    if p == [] then n
    else if |p| == 1 then Section(ChildrenOf(n)[p[0] := leaf])
    else Section(ChildrenOf(n)[p[0] := Set(ChildOr(ChildrenOf(n), p[0]), p[1..], leaf)])
  }

  datatype Frame = Frame(siblings: map<string, Node>, key: string)

  function Plug(frames: seq<Frame>, n: Node): Node
    decreases |frames|
  {
    if frames == [] then n
    else
      var last := frames[|frames| - 1];
      Plug(frames[..|frames| - 1], Section(last.siblings[last.key := n]))
  }

  /** `SourceTree::set`, as the walk it is. `frames` is what the mutable borrow leaves above the node. */
  method SetInPlace(root: Node, key: string, leaf: Node) returns (result: Node)
    ensures result == Set(root, Split(key), leaf)
  {
    var segments := Split(key);
    var node, frames := root, [];
    var i := 0;
    while i < |segments| - 1
      invariant 0 <= i <= |segments| - 1
      invariant Set(root, segments, leaf) == Plug(frames, Set(node, segments[i..], leaf))
    {
      var segment := segments[i];
      assert segments[i..][0] == segment && segments[i..][1..] == segments[i + 1..];
      if node.Leaf? {
        node := EMPTY;
      }
      var children := node.children;
      ghost var below := Set(ChildOr(children, segment), segments[i + 1..], leaf);
      assert (frames + [Frame(children, segment)])[..|frames|] == frames;
      assert Plug(frames + [Frame(children, segment)], below) == Plug(frames, Section(children[segment := below]));
      frames := frames + [Frame(children, segment)];
      node := ChildOr(children, segment);
      i := i + 1;
    }
    if node.Leaf? {
      node := EMPTY;
    }
    result := Plug(frames, Section(node.children[segments[i] := leaf]));
  }

  lemma ChildView(n: Node, p: Path)
    requires |p| > 1
    ensures ViewAt(n, p) == ViewAt(ChildOr(ChildrenOf(n), p[0]), p[1..])
  {}

  lemma SetOneView(n: Node, p: Path, leaf: Node, q: Path)
    requires |p| == 1 && leaf.Leaf? && q != [] && q[0] == p[0]
    ensures p <= q
    ensures ViewAt(Set(n, p, leaf), q) == if q == p then Setting(leaf) else Nothing
  {
    assert p == [p[0]];
    assert Get(Set(n, p, leaf), q) == Get(leaf, q[1..]);
    assert q[1..] == [] <==> q == p;
  }

  lemma {:induction false} SetDeepView(n: Node, p: Path, leaf: Node, q: Path)
    requires |p| > 1 && q != [] && q[0] == p[0]
    ensures ViewAt(Set(n, p, leaf), q) == ViewAt(Set(ChildOr(ChildrenOf(n), p[0]), p[1..], leaf), q[1..])
  {}

  lemma {:induction false} SetOtherView(n: Node, p: Path, leaf: Node, q: Path)
    requires p != [] && (q == [] || q[0] != p[0])
    ensures ViewAt(Set(n, p, leaf), q) == if q == [] then Inner else ViewAt(n, q)
    ensures q != [] ==> !Comparable(p, q)
  {}

  /** What a layer shows after a set, at every path: the leaf at `p`, sections above it, nothing below it,
      and the old layer everywhere else. */
  lemma {:induction false} SetViews(n: Node, p: Path, leaf: Node, q: Path)
    requires p != [] && leaf.Leaf?
    ensures q == p ==> ViewAt(Set(n, p, leaf), q) == Setting(leaf)
    ensures q < p ==> ViewAt(Set(n, p, leaf), q) == Inner
    ensures p < q ==> ViewAt(Set(n, p, leaf), q) == Nothing
    ensures !Comparable(p, q) ==> ViewAt(Set(n, p, leaf), q) == ViewAt(n, q)
    decreases |p|
  {
    if q == [] || q[0] != p[0] {
      SetOtherView(n, p, leaf, q);
    } else if |p| == 1 {
      SetOneView(n, p, leaf, q);
    } else {
      TailPrefix(p, q);
      TailPrefix(q, p);
      assert q == p <==> q[1..] == p[1..];
      SetDeepView(n, p, leaf, q);
      SetViews(ChildOr(ChildrenOf(n), p[0]), p[1..], leaf, q[1..]);
      if |q| > 1 {
        ChildView(n, q);
      }
    }
  }

  /** Sets at incomparable paths commute. */
  lemma SetCommutes(n: Node, p: Path, a: Node, q: Path, b: Node)
    requires p != [] && q != [] && a.Leaf? && b.Leaf? && !Comparable(p, q)
    ensures Set(Set(n, p, a), q, b) == Set(Set(n, q, b), p, a)
  {
    forall u ensures ViewAt(Set(Set(n, p, a), q, b), u) == ViewAt(Set(Set(n, q, b), p, a), u) {
      SetViews(n, p, a, u);
      SetViews(n, q, b, u);
      SetViews(Set(n, p, a), q, b, u);
      SetViews(Set(n, q, b), p, a, u);
      Diverge(p, q, u);
    }
    SameViews(Set(Set(n, p, a), q, b), Set(Set(n, q, b), p, a));
  }

  lemma Diverge(p: Path, q: Path, u: Path)
    requires !Comparable(p, q)
    ensures !(p <= u && q <= u)
    ensures p <= u ==> !Comparable(q, u)
    ensures q <= u ==> !Comparable(p, u)
  {}

  /** A set on a prefix absorbs an earlier, deeper one. */
  lemma SetAbsorbs(n: Node, p: Path, a: Node, q: Path, b: Node)
    requires p != [] && p <= q && a.Leaf? && b.Leaf?
    ensures Set(Set(n, q, b), p, a) == Set(n, p, a)
  {
    forall u ensures ViewAt(Set(Set(n, q, b), p, a), u) == ViewAt(Set(n, p, a), u) {
      SetViews(n, q, b, u);
      SetViews(n, p, a, u);
      SetViews(Set(n, q, b), p, a, u);
      if q <= u { assert p <= u; }
    }
    SameViews(Set(Set(n, q, b), p, a), Set(n, p, a));
  }

  // ---------- overlay ----------

  /** Layers `overlay` over `base`. */
  function Merge(base: Node, overlay: Node): Node
    decreases base
  {
    if base.Section? && overlay.Section? then
      Section(map k | k in base.children.Keys + overlay.children.Keys ::
        if k !in overlay.children then base.children[k]
        else if k !in base.children then overlay.children[k]
        else Merge(base.children[k], overlay.children[k]))
    else if overlay.Leaf? && overlay.provenance == Default && HasExplicit(base) then base
    else overlay
  }

  lemma MergeChild(base: Node, overlay: Node, k: string)
    requires base.Section? && overlay.Section?
    ensures Merge(base, overlay).Section?
    ensures
      var merged := Merge(base, overlay).children;
      && (k in merged <==> k in base.children || k in overlay.children)
      && (k in base.children && k in overlay.children ==> merged[k] == Merge(base.children[k], overlay.children[k]))
      && (k in base.children && k !in overlay.children ==> merged[k] == base.children[k])
      && (k !in base.children && k in overlay.children ==> merged[k] == overlay.children[k])
  {}

  ghost predicate ExplicitAbove(n: Node, p: Path) {
    exists u :: u < p && ExplicitLeafAt(n, u)
  }

  lemma AboveChild(n: Node, p: Path)
    requires n.Section? && p != []
    ensures ExplicitAbove(n, p) <==> p[0] in n.children && ExplicitAbove(n.children[p[0]], p[1..])
  {
    if u :| u < p && ExplicitLeafAt(n, u) {
      assert u != [];
      TailPrefix(u, p);
      assert u[1..] < p[1..] && ExplicitLeafAt(n.children[p[0]], u[1..]);
    }
    if p[0] in n.children && ExplicitAbove(n.children[p[0]], p[1..]) {
      var u :| u < p[1..] && ExplicitLeafAt(n.children[p[0]], u);
      GetCons(n, p[0], u);
      assert [p[0]] + u < p && ExplicitLeafAt(n, [p[0]] + u);
    }
  }

  /** The fate of a value the base set explicitly: gone if the overlay set a value above it, replaced if the
      overlay set a value or opened a section in its place, and kept otherwise. */
  lemma {:induction false} ExplicitBaseLeaf(base: Node, overlay: Node, p: Path)
    requires ExplicitLeafAt(base, p)
    ensures Get(Merge(base, overlay), p) ==
            if ExplicitAbove(overlay, p) then None
            else if ViewAt(overlay, p) == Inner || ExplicitLeafAt(overlay, p) then Get(overlay, p)
            else Get(base, p)
    decreases |p|
  {
    if base.Section? && overlay.Section? {
      MergeChild(base, overlay, p[0]);
      AboveChild(overlay, p);
      if p[0] in overlay.children {
        assert ExplicitLeafAt(base.children[p[0]], p[1..]);
        ExplicitBaseLeaf(base.children[p[0]], overlay.children[p[0]], p[1..]);
      }
    } else {
      ExplicitSomewhere(base);
      assert ExplicitLeafAt(base, p);
      if overlay.Leaf? && p != [] {
        assert ExplicitAbove(overlay, p) <==> overlay.provenance == Explicit by {
          if overlay.provenance == Explicit { assert [] < p && ExplicitLeafAt(overlay, []); }
          if u :| u < p && ExplicitLeafAt(overlay, u) { assert u == []; }
        }
      }
    }
  }

  lemma {:induction false} MergeIdempotent(n: Node)
    ensures Merge(n, n) == n
    decreases n
  {
    if n.Section? {
      forall k | k in n.children { MergeIdempotent(n.children[k]); }
    }
  }

  /** The layer that supplies nothing is a left identity, and a right identity of every layer that is not a
      bare leaf. */
  lemma MergeEmpty(n: Node)
    ensures Merge(EMPTY, n) == n
    ensures Merge(n, EMPTY) == n <==> n.Section?
  {}

  // ---------- grouping ----------

  /** An overlay's explicit values survive the merge. */
  lemma {:induction false} ExplicitSurvives(base: Node, overlay: Node)
    requires HasExplicit(overlay)
    ensures HasExplicit(Merge(base, overlay))
    decreases overlay
  {
    if base.Section? && overlay.Section? {
      var k :| k in overlay.children && HasExplicit(overlay.children[k]);
      MergeChild(base, overlay, k);
      if k in base.children {
        ExplicitSurvives(base.children[k], overlay.children[k]);
      }
    }
  }

  /** Nothing explicit comes of merging nothing explicit. */
  lemma {:induction false} NothingExplicit(base: Node, overlay: Node)
    requires !HasExplicit(base) && !HasExplicit(overlay)
    ensures !HasExplicit(Merge(base, overlay))
    decreases base
  {
    if base.Section? && overlay.Section? {
      forall k | k in base.children && k in overlay.children { NothingExplicit(base.children[k], overlay.children[k]); }
    }
  }

  /** Three layers for which the grouping makes no difference. A default at the end would be decided by `a` alone
      in one grouping, so `b` must leave `a` as it is; a value in the middle is dropped for the section `c` in one
      grouping and hides `a` from it in the other, so `c` must cover `a`; and sections go key by key. */
  ghost predicate Groups(a: Node, b: Node, c: Node)
    decreases a
  {
    if c.Leaf? then
      c.provenance == Default && HasExplicit(a) && !HasExplicit(b) ==> Merge(a, b) == a
    else if b.Leaf? then
      a.Section? && !(b.provenance == Default && HasExplicit(a)) ==> Merge(a, c) == c
    else
      a.Section? ==>
        forall k :: k in a.children && k in b.children && k in c.children ==>
                      Groups(a.children[k], b.children[k], c.children[k])
  }

  lemma DefaultGroups(a: Node, b: Node, c: Node)
    requires c.Leaf?
    ensures Merge(Merge(a, b), c) == Merge(a, Merge(b, c)) <==> Groups(a, b, c)
  {
    if HasExplicit(b) {
      ExplicitSurvives(a, b);
    } else if !HasExplicit(a) {
      NothingExplicit(a, b);
    }
  }

  lemma {:induction false} SectionsGroup(a: Node, b: Node, c: Node, k: string)
    requires a.Section? && b.Section? && c.Section?
    ensures
      var left, right := Merge(Merge(a, b), c).children, Merge(a, Merge(b, c)).children;
      && (k in left <==> k in right)
      && (k in left && !(k in a.children && k in b.children && k in c.children) ==> left[k] == right[k])
      && (k in a.children && k in b.children && k in c.children ==>
            && left[k] == Merge(Merge(a.children[k], b.children[k]), c.children[k])
            && right[k] == Merge(a.children[k], Merge(b.children[k], c.children[k])))
  {
    MergeChild(a, b, k);
    MergeChild(b, c, k);
    MergeChild(Merge(a, b), c, k);
    MergeChild(a, Merge(b, c), k);
  }

  /** Overlaying three layers gives the same either way exactly if they group. */
  lemma {:induction false} GroupingIff(a: Node, b: Node, c: Node)
    ensures Merge(Merge(a, b), c) == Merge(a, Merge(b, c)) <==> Groups(a, b, c)
    decreases a
  {
    if c.Leaf? {
      DefaultGroups(a, b, c);
    } else if a.Section? && b.Section? {
      var left, right := Merge(Merge(a, b), c), Merge(a, Merge(b, c));
      forall k
        ensures k in left.children <==> k in right.children
        ensures k in a.children && k in b.children && k in c.children ==>
                  (left.children[k] == right.children[k] <==> Groups(a.children[k], b.children[k], c.children[k]))
        ensures k in left.children && !(k in a.children && k in b.children && k in c.children) ==>
                  left.children[k] == right.children[k]
      {
        SectionsGroup(a, b, c, k);
        if k in a.children && k in b.children && k in c.children {
          GroupingIff(a.children[k], b.children[k], c.children[k]);
        }
      }
      assert left.children == right.children <==> left == right;
    }
  }

  /** No path is a section in one layer and a leaf in the other. */
  ghost predicate Compatible(a: Node, b: Node)
    decreases a
  {
    if a.Section? && b.Section? then
      forall k :: k in a.children && k in b.children ==> Compatible(a.children[k], b.children[k])
    else a.Leaf? && b.Leaf?
  }

  lemma {:induction false} CompatibleGroup(a: Node, b: Node, c: Node)
    requires Compatible(a, b) && Compatible(b, c) && Compatible(a, c)
    ensures Groups(a, b, c)
    decreases a
  {
    if a.Section? {
      forall k | k in a.children && k in b.children && k in c.children {
        CompatibleGroup(a.children[k], b.children[k], c.children[k]);
      }
    }
  }

  /** Layering layers of agreeing shape does not depend on how they are grouped. */
  lemma {:induction false} MergeAssociative(a: Node, b: Node, c: Node)
    requires Compatible(a, b) && Compatible(b, c) && Compatible(a, c)
    ensures Merge(Merge(a, b), c) == Merge(a, Merge(b, c))
  {
    CompatibleGroup(a, b, c);
    GroupingIff(a, b, c);
  }

  /** Where shapes disagree the grouping can matter: a section with nothing in it hides a value from the default
      that follows. */
  lemma GroupingMatters(key: string, v: Value, a: Node, b: Node, c: Node)
    requires a == Section(map[key := Leaf(v, Explicit)])
    requires b == Section(map[key := EMPTY])
    requires c == Section(map[key := Leaf(v, Default)])
    ensures Merge(Merge(a, b), c) == c && Merge(a, Merge(b, c)) == a && a != c
  {
    SectionsGroup(a, b, c, key);
    assert a.children[key] != c.children[key];
    assert Merge(Merge(a, b), c).children == c.children && Merge(a, Merge(b, c)).children == a.children;
  }

  // ---------- the overlay's own leaves ----------

  /** A value the overlay holds at `p` wins, unless it is a default and the base set something explicitly at
      or beneath `p`: then the base's node stays, whole. */
  lemma {:induction false} OverlayLeaf(base: Node, overlay: Node, p: Path)
    requires ViewAt(overlay, p).Setting?
    ensures Get(Merge(base, overlay), p) ==
            if !ExplicitLeafAt(overlay, p) && Get(base, p).Some? && HasExplicit(Get(base, p).value) then Get(base, p)
            else Get(overlay, p)
    decreases |p|
  {
    if base.Section? && overlay.Section? {
      MergeChild(base, overlay, p[0]);
      if p[0] in base.children {
        OverlayLeaf(base.children[p[0]], overlay.children[p[0]], p[1..]);
      }
    }
  }

  /** Where the overlay has nothing, at `p` or above it, the base stays. */
  lemma {:induction false} OverlayNothing(base: Node, overlay: Node, p: Path)
    requires ViewAt(overlay, p) == Nothing && forall u :: u < p ==> !ViewAt(overlay, u).Setting?
    ensures Get(Merge(base, overlay), p) == Get(base, p)
    decreases |p|
  {
    assert [] < p && overlay.Section? by {
      assert !ViewAt(overlay, []).Setting?;
    }
    if base.Section? {
      MergeChild(base, overlay, p[0]);
      if p[0] in base.children && p[0] in overlay.children {
        forall u | u < p[1..] ensures !ViewAt(overlay.children[p[0]], u).Setting? {
          GetCons(overlay, p[0], u);
          assert [p[0]] + u < p && !ViewAt(overlay, [p[0]] + u).Setting?;
        }
        OverlayNothing(base.children[p[0]], overlay.children[p[0]], p[1..]);
      }
    }
  }

  /** A setting demoted to a default stops shadowing the local value, whatever the layer held before. */
  lemma DefaultYields(base: Node, agent: Node, p: Path, v: Value)
    requires p != []
    ensures Get(Merge(base, Set(agent, p, Leaf(v, Default))), p) ==
            if Get(base, p).Some? && HasExplicit(Get(base, p).value) then Get(base, p) else Some(Leaf(v, Default))
  {
    SetViews(agent, p, Leaf(v, Default), p);
    OverlayLeaf(base, Set(agent, p, Leaf(v, Default)), p);
  }

  // ---------- the local layer ----------

  /** Splits a value into sections and explicit leaves: an object is split at the root and at the section
      paths `sections`, and anything else is one leaf. */
  function FromValue(sections: set<Path>, v: Value, path: Path): Node
    decreases v
  {
    if v.Object? && (path == [] || path in sections) then
      Section(map k | k in v.fields :: FromValue(sections, v.fields[k], path + [k]))
    else Leaf(v, Explicit)
  }

  /** The local layer holds exactly the values it was made from, and every leaf of it is explicit. */
  lemma {:induction false} LocalLayer(sections: set<Path>, v: Value, path: Path)
    ensures ToValue(FromValue(sections, v, path)) == v
    ensures forall p :: ViewAt(FromValue(sections, v, path), p).Setting? ==> ExplicitLeafAt(FromValue(sections, v, path), p)
    decreases v
  {
    var n := FromValue(sections, v, path);
    if n.Section? {
      forall k | k in v.fields { LocalLayer(sections, v.fields[k], path + [k]); }
      assert ToValue(n).fields == v.fields;
      forall p | ViewAt(n, p).Setting? ensures ExplicitLeafAt(n, p) {
        assert p != [];
        assert ViewAt(n.children[p[0]], p[1..]).Setting?;
      }
    } else {
      forall p | ViewAt(n, p).Setting? ensures ExplicitLeafAt(n, p) {}
    }
  }
}
