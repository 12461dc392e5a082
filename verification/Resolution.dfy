/** Writing gathered values into one tree: `write`, `is_vacant` and the four phases of `resolve`. */
module Resolution {
  import opened Wrappers
  import opened Json

  /** A value and the path it is meant for. */
  datatype Placed = Placed(path: Path, value: Value)

  // ---------- write and is_vacant ----------

  function FieldsOf(root: map<string, Value>, key: string): map<string, Value> {
    if key in root && root[key].Object? then root[key].fields else map[]
  }

  /** `value` put at `path`: whatever is in the way becomes an object. */
  function Write(root: map<string, Value>, path: Path, value: Value): map<string, Value>
    decreases |path|
  {
    if path == [] then root
    else if |path| == 1 then root[path[0] := value]
    else root[path[0] := Object(Write(FieldsOf(root, path[0]), path[1..], value))]
  }

  predicate IsVacant(root: map<string, Value>, path: Path)
    decreases |path|
  {
    if path == [] then false
    else if path[0] !in root then true
    else |path| > 1 && root[path[0]].Object? && IsVacant(root[path[0]].fields, path[1..])
  }

  lemma FieldsShape(root: map<string, Value>, p: Path)
    requires |p| > 1
    ensures ShapeAt(Object(root), p) == ShapeAt(Object(FieldsOf(root, p[0])), p[1..])
  {
    assert At(Object(map[]), p[1..]) == None;
    if p[0] in root && root[p[0]].Object? {
      assert Object(FieldsOf(root, p[0])) == root[p[0]];
    } else if p[0] in root {
      assert At(root[p[0]], p[1..]) == None;
    }
  }

  lemma WriteOneShape(root: map<string, Value>, path: Path, value: Value, p: Path)
    requires |path| == 1 && p != [] && p[0] == path[0]
    ensures path <= p && ShapeAt(Object(Write(root, path, value)), p) == ShapeAt(value, p[|path|..])
  {}

  lemma WriteDeepShape(root: map<string, Value>, path: Path, value: Value, p: Path)
    requires |path| > 1 && p != [] && p[0] == path[0]
    ensures ShapeAt(Object(Write(root, path, value)), p)
         == ShapeAt(Object(Write(FieldsOf(root, path[0]), path[1..], value)), p[1..])
  {}

  /** What the tree shows after a write, at every path: `value` below `path`, objects above it, and
      the old tree everywhere else. */
  lemma {:induction false} WriteShapes(root: map<string, Value>, path: Path, value: Value, p: Path)
    requires path != []
    ensures path <= p ==> ShapeAt(Object(Write(root, path, value)), p) == ShapeAt(value, p[|path|..])
    ensures p < path ==> ShapeAt(Object(Write(root, path, value)), p) == Branch
    ensures !Comparable(p, path) ==> ShapeAt(Object(Write(root, path, value)), p) == ShapeAt(Object(root), p)
    decreases |path|
  {
    if p != [] && p[0] == path[0] {
      if |path| == 1 {
        WriteOneShape(root, path, value, p);
      } else {
        WriteShapes(FieldsOf(root, path[0]), path[1..], value, p[1..]);
        WriteDeepShape(root, path, value, p);
        TailPrefix(path, p);
        TailPrefix(p, path);
        if |p| > 1 {
          FieldsShape(root, p);
        }
      }
    }
  }

  /** Vacancy seen from outside: the path shows nothing and no value that is not an object sits above it. */
  lemma {:induction false} VacantShapes(root: map<string, Value>, path: Path)
    ensures IsVacant(root, path) <==>
              path != [] && ShapeAt(Object(root), path) == Absent &&
              forall u :: u < path ==> !ShapeAt(Object(root), u).Scalar?
    decreases |path|
  {
    if path != [] && path[0] in root {
      var head, child := [path[0]], root[path[0]];
      AtCons(Object(root), path[0], []);
      assert head + [] == head && ShapeAt(Object(root), head) == ShapeOf(Some(child));
      if |path| > 1 && child.Object? {
        VacantShapes(child.fields, path[1..]);
        forall u | u < path[1..] ensures head + u < path && ShapeAt(Object(root), head + u) == ShapeAt(child, u) {
          AtCons(Object(root), path[0], u);
        }
        forall u | u < path && u != []
          ensures u[1..] < path[1..] && ShapeAt(Object(root), u) == ShapeAt(child, u[1..])
        {}
      } else if |path| > 1 {
        assert head < path;
      } else {
        assert path == head;
      }
    } else if path != [] {
      forall u | u < path ensures !ShapeAt(Object(root), u).Scalar? {}
    }
  }

  /** `is_vacant`, as the walk it is. */
  method CheckVacant(root: map<string, Value>, path: Path) returns (vacant: bool)
    ensures vacant == IsVacant(root, path)
  {
    if path == [] {
      return false;
    }
    var current := root;
    var i := 0;
    while i < |path| - 1
      invariant 0 <= i <= |path| - 1
      invariant IsVacant(root, path) == IsVacant(current, path[i..])
    {
      var segment := path[i];
      assert path[i..][0] == segment && path[i..][1..] == path[i + 1..];
      if segment !in current {
        return true;
      }
      if !current[segment].Object? {
        return false;
      }
      current := current[segment].fields;
      i := i + 1;
    }
    return path[i] !in current;
  }

  /** The objects a walk has passed through, innermost last: what a mutable borrow of the current object
      leaves above it. */
  datatype Frame = Frame(parent: map<string, Value>, key: string)

  function Plug(frames: seq<Frame>, current: map<string, Value>): map<string, Value>
    decreases |frames|
  {
    if frames == [] then current
    else
      var last := frames[|frames| - 1];
      Plug(frames[..|frames| - 1], last.parent[last.key := Object(current)])
  }

  lemma PlugPush(frames: seq<Frame>, parent: map<string, Value>, key: string, below: map<string, Value>)
    ensures Plug(frames + [Frame(parent, key)], below) == Plug(frames, parent[key := Object(below)])
  {}

  /** `write`, as the walk it is: the parents are made objects on the way down. */
  method WriteAt(root: map<string, Value>, path: Path, value: Value) returns (result: map<string, Value>)
    ensures result == Write(root, path, value)
  {
    if path == [] {
      return root;
    }
    var current, frames := root, [];
    var i := 0;
    while i < |path| - 1
      invariant 0 <= i <= |path| - 1
      invariant Write(root, path, value) == Plug(frames, Write(current, path[i..], value))
    {
      var segment := path[i];
      assert path[i..][0] == segment && path[i..][1..] == path[i + 1..];
      var parent := FieldsOf(current, segment);
      PlugPush(frames, current, segment, Write(parent, path[i + 1..], value));
      frames := frames + [Frame(current, segment)];
      current := parent;
      i := i + 1;
    }
    result := Plug(frames, current[path[i] := value]);
  }

  // ---------- the phases of resolve ----------

  function WriteInPlace(root: map<string, Value>, placed: seq<Placed>): map<string, Value> {
    if placed == [] then root
    else
      var n := |placed| - 1;
      Write(WriteInPlace(root, placed[..n]), placed[n].path, placed[n].value)
  }

  function WriteIfVacant(root: map<string, Value>, path: Path, value: Value): map<string, Value> {
    if IsVacant(root, path) then Write(root, path, value) else root
  }

  /** Moved values, last first. */
  function WriteMoved(root: map<string, Value>, moved: seq<Placed>): map<string, Value>
    decreases |moved|
  {
    if moved == [] then root
    else
      var n := |moved| - 1;
      WriteMoved(WriteIfVacant(root, moved[n].path, moved[n].value), moved[..n])
  }

  function WriteEach(root: map<string, Value>, paths: seq<Path>, value: Value): map<string, Value> {
    if paths == [] then root
    else
      var n := |paths| - 1;
      WriteIfVacant(WriteEach(root, paths[..n], value), paths[n], value)
  }

  function Resolved(inPlace: seq<Placed>, moved: seq<Placed>, sections: seq<Path>, nulls: seq<Path>)
    : map<string, Value>
  {
    WriteEach(
      WriteEach(WriteMoved(WriteInPlace(map[], inPlace), moved), sections, Object(map[])),
      nulls, Null)
  }

  // ---------- what a tree holds, as a set of claims ----------

  ghost predicate Under(claims: map<Path, Value>, p: Path) {
    exists a :: a in claims && a <= p
  }

  ghost predicate Above(claims: map<Path, Value>, p: Path) {
    exists a :: a in claims && p < a
  }

  ghost predicate Opens(sections: set<Path>, p: Path) {
    exists s :: s in sections && p <= s
  }

  ghost predicate Antichain(claims: map<Path, Value>) {
    forall a, b :: a in claims && b in claims && a != b ==> !Comparable(a, b)
  }

  ghost function Owner(claims: map<Path, Value>, p: Path): (a: Path)
    requires Under(claims, p)
    ensures a in claims && a <= p
  {
    var a :| a in claims && a <= p;
    a
  }

  /** What a tree shows at `p` when it holds exactly `claims`, and an object at and above each section. */
  ghost function Shown(claims: map<Path, Value>, sections: set<Path>, p: Path): Shape {
    if Under(claims, p) then
      var a := Owner(claims, p);
      ShapeAt(claims[a], p[|a|..])
    else if p == [] || Above(claims, p) || Opens(sections, p) then Branch
    else Absent
  }

  ghost predicate Holds(root: map<string, Value>, claims: map<Path, Value>, sections: set<Path>) {
    forall p :: ShapeAt(Object(root), p) == Shown(claims, sections, p)
  }

  lemma ShownUnder(claims: map<Path, Value>, sections: set<Path>, a: Path, p: Path)
    requires Antichain(claims) && a in claims && a <= p
    ensures Shown(claims, sections, p) == ShapeAt(claims[a], p[|a|..])
  {}

  lemma UnderGrows(claims: map<Path, Value>, p: Path, q: Path)
    ensures p <= q && Under(claims, p) ==> Under(claims, q)
  {}

  lemma AboveShrinks(claims: map<Path, Value>, p: Path, q: Path)
    ensures p <= q && Above(claims, q) ==> Above(claims, p)
  {}

  lemma OpensShrinks(sections: set<Path>, p: Path, q: Path)
    ensures p <= q && Opens(sections, q) ==> Opens(sections, p)
  {}

  /** A claim at or above `p` is comparable with anything else at or above `p`. */
  lemma UnderBoth(claims: map<Path, Value>, p: Path, q: Path)
    ensures p <= q && Under(claims, q) ==> Under(claims, p) || Above(claims, p)
  {}

  /** Writing at a path no claim is comparable with adds the claim. */
  lemma HoldsWrite(root: map<string, Value>, claims: map<Path, Value>, sections: set<Path>, q: Path, v: Value)
    requires Holds(root, claims, sections) && Antichain(claims)
    requires q != [] && !Under(claims, q) && !Above(claims, q)
    ensures Holds(Write(root, q, v), claims[q := v], sections) && Antichain(claims[q := v])
  {
    var claims' := claims[q := v];
    forall a | a in claims ensures !Comparable(a, q) {
      assert !(a <= q) && !(q < a);
    }
    assert Antichain(claims');
    forall p ensures ShapeAt(Object(Write(root, q, v)), p) == Shown(claims', sections, p) {
      WriteShapes(root, q, v, p);
      UnderGrows(claims, p, q);
      if q <= p {
        ShownUnder(claims', sections, q, p);
      } else {
        forall a | a in claims' && a <= p ensures a in claims && a != q {}
        assert Under(claims', p) <==> Under(claims, p) by {
          if Under(claims, p) { assert Owner(claims, p) in claims' && Owner(claims, p) <= p; }
        }
        if Under(claims, p) {
          ShownUnder(claims', sections, Owner(claims, p), p);
        } else if p < q {
          assert q in claims' && p < q;
        } else {
          assert Above(claims', p) <==> Above(claims, p) by {
            if Above(claims, p) { var a :| a in claims && p < a; assert a in claims' && p < a; }
          }
        }
      }
    }
  }

  /** Vacancy in terms of claims, where any claim above the path is not an object. */
  lemma HoldsVacant(root: map<string, Value>, claims: map<Path, Value>, sections: set<Path>, q: Path)
    requires Holds(root, claims, sections) && Antichain(claims)
    requires forall a :: a in claims && a < q ==> !claims[a].Object?
    ensures IsVacant(root, q) <==> q != [] && !Under(claims, q) && !Above(claims, q) && !Opens(sections, q)
  {
    VacantShapes(root, q);
    if Under(claims, q) {
      var a := Owner(claims, q);
      ShownUnder(claims, sections, a, q);
      ShownUnder(claims, sections, a, a);
      assert a[|a|..] == [];
      assert ShapeAt(Object(root), a) == Shown(claims, sections, a) == ShapeOf(Some(claims[a]));
    } else {
      assert ShapeAt(Object(root), q) == Shown(claims, sections, q);
      forall u | u < q ensures !ShapeAt(Object(root), u).Scalar? {
        UnderGrows(claims, u, q);
        assert ShapeAt(Object(root), u) == Shown(claims, sections, u);
      }
    }
  }

  /** An empty section written where it is vacant, or dropped where it is not, is one more open section. */
  lemma HoldsSection(root: map<string, Value>, claims: map<Path, Value>, sections: set<Path>, s: Path)
    requires Holds(root, claims, sections) && Antichain(claims)
    requires forall a :: a in claims && a < s ==> !claims[a].Object?
    ensures Holds(WriteIfVacant(root, s, Object(map[])), claims, sections + {s})
  {
    HoldsVacant(root, claims, sections, s);
    var root' := WriteIfVacant(root, s, Object(map[]));
    forall p ensures ShapeAt(Object(root'), p) == Shown(claims, sections + {s}, p) {
      assert ShapeAt(Object(root), p) == Shown(claims, sections, p);
      assert Opens(sections + {s}, p) <==> Opens(sections, p) || p <= s by {
        if Opens(sections, p) {
          var s' :| s' in sections && p <= s';
          assert s' in sections + {s};
        }
      }
      UnderGrows(claims, p, s);
      UnderBoth(claims, s, p);
      UnderBoth(claims, p, s);
      AboveShrinks(claims, s, p);
      AboveShrinks(claims, p, s);
      OpensShrinks(sections, s, p);
      OpensShrinks(sections, p, s);
      if IsVacant(root, s) {
        WriteShapes(root, s, Object(map[]), p);
      }
    }
  }
}
