/** JSON values, the paths that address them, and dotted keys. */
module Json {
  import opened Wrappers

  datatype Value =
    | Null
    | Bool(b: bool)
    | Number(n: real)
    | Text(s: string)
    | List(items: seq<Value>)
    | Object(fields: map<string, Value>)

  type Path = seq<string>

  /** The value at `p` inside `v`, if every step on the way is an object that has the key. */
  function At(v: Value, p: Path): Option<Value>
    decreases |p|
  {
    if p == [] then Some(v)
    else if v.Object? && p[0] in v.fields then At(v.fields[p[0]], p[1..])
    else None
  }

  /** What one path of a tree shows: nothing, an object, or a value that is not an object. */
  datatype Shape = Absent | Branch | Scalar(value: Value)

  function ShapeOf(o: Option<Value>): Shape {
    match o
    case None => Absent
    case Some(Object(_)) => Branch
    case Some(x) => Scalar(x)
  }

  function ShapeAt(v: Value, p: Path): Shape {
    ShapeOf(At(v, p))
  }

  predicate Comparable(p: Path, q: Path) {
    p <= q || q <= p
  }

  /** Two prefixes of one path are comparable. */
  lemma ComparablePrefixes(a: Path, b: Path, p: Path)
    requires a <= p && b <= p
    ensures Comparable(a, b)
  {}

  lemma TailPrefix(p: Path, q: Path)
    requires p != [] && q != [] && p[0] == q[0]
    ensures p <= q <==> p[1..] <= q[1..]
    ensures p <= q ==> q[1..][|p| - 1..] == q[|p|..]
  {}

  lemma AtCons(v: Value, k: string, p: Path)
    ensures At(v, [k] + p) == if v.Object? && k in v.fields then At(v.fields[k], p) else None
  {}

  lemma {:induction false} AtConcat(v: Value, p: Path, q: Path)
    ensures At(v, p + q) == if At(v, p).Some? then At(At(v, p).value, q) else None
    decreases |p|
  {
    if p == [] {
      assert p + q == q;
    } else {
      assert (p + q)[1..] == p[1..] + q;
      if v.Object? && p[0] in v.fields {
        AtConcat(v.fields[p[0]], p[1..], q);
      }
    }
  }

  /** A tree is determined by what it shows at every path. */
  lemma {:induction false} SameShapes(a: Value, b: Value)
    requires forall p :: ShapeAt(a, p) == ShapeAt(b, p)
    ensures a == b
    decreases a
  {
    assert ShapeAt(a, []) == ShapeAt(b, []);
    if a.Object? {
      forall k ensures k in a.fields <==> k in b.fields
        ensures k in a.fields ==> a.fields[k] == b.fields[k]
      {
        AtCons(a, k, []);
        AtCons(b, k, []);
        assert ShapeAt(a, [k] + []) == ShapeAt(b, [k] + []);
        if k in a.fields {
          forall p ensures ShapeAt(a.fields[k], p) == ShapeAt(b.fields[k], p) {
            AtCons(a, k, p);
            AtCons(b, k, p);
            assert ShapeAt(a, [k] + p) == ShapeAt(b, [k] + p);
          }
          SameShapes(a.fields[k], b.fields[k]);
        }
      }
      assert a.fields == b.fields;
    }
  }

  function IndexOf(s: string, c: char): (i: nat)
    requires c in s
    ensures i < |s| && s[i] == c && c !in s[..i]
  {
    if s[0] == c then 0 else 1 + IndexOf(s[1..], c)
  }

  /** The segments of a dotted key. A key always has at least one, possibly empty. */
  function Split(s: string): (segments: Path)
    ensures segments != []
    ensures '.' !in s ==> segments == [s]
  {
    if '.' in s then
      var i := IndexOf(s, '.');
      [s[..i]] + Split(s[i + 1..])
    else [s]
  }

  // ---------- dotted keys and the paths they spell ----------

  /** A path written out, with a dot between segments. */
  function Joined(path: Path): string {
    if path == [] then ""
    else if |path| == 1 then path[0]
    else path[0] + "." + Joined(path[1..])
  }

  ghost predicate Dotless(path: Path) {
    forall i :: 0 <= i < |path| ==> '.' !in path[i]
  }

  lemma FirstDot(a: string, b: string)
    requires '.' !in a
    ensures '.' in a + "." + b && IndexOf(a + "." + b, '.') == |a|
  {
    var s := a + "." + b;
    assert s[|a|] == '.';
    var i := IndexOf(s, '.');
    assert forall j :: 0 <= j < |a| ==> s[j] == a[j] && a[j] in a;
    assert forall j :: 0 <= j < i ==> s[j] in s[..i];
  }

  lemma {:induction false} SplitFirst(a: string, b: string)
    requires '.' !in a
    ensures Split(a + "." + b) == [a] + Split(b)
  {
    FirstDot(a, b);
    var s := a + "." + b;
    assert s[..|a|] == a && s[|a| + 1..] == b;
  }

  /** Every path of dotless segments is what its dotted key splits into. */
  lemma {:induction false} SplitJoined(path: Path)
    requires path != [] && Dotless(path)
    ensures Split(Joined(path)) == path
    decreases |path|
  {
    assert '.' !in path[0];
    if |path| > 1 {
      SplitFirst(path[0], Joined(path[1..]));
      SplitJoined(path[1..]);
      assert path == [path[0]] + path[1..];
    } else {
      assert path == [path[0]];
    }
  }

  lemma {:induction false} JoinedFirst(a: string, q: Path)
    requires q != []
    ensures Joined([a] + q) == a + "." + Joined(q)
    ensures '.' !in a && Dotless(q) ==> Dotless([a] + q)
  {
    assert ([a] + q)[1..] == q;
  }

  /** Every key is its segments written out, and none of them has a dot in it. */
  lemma {:induction false} JoinedSplit(s: string)
    ensures Joined(Split(s)) == s && Dotless(Split(s))
  {
    if '.' in s {
      var i := IndexOf(s, '.');
      var first, rest := s[..i], s[i + 1..];
      assert s == first + "." + rest;
      JoinedSplit(rest);
      JoinedFirst(first, Split(rest));
    }
  }

  lemma {:induction false} JoinedConcat(p: Path, q: Path)
    requires p != [] && q != []
    ensures Joined(p + q) == Joined(p) + "." + Joined(q)
    decreases |p|
  {
    assert (p + q)[0] == p[0] && (p + q)[1..] == p[1..] + q;
    if |p| == 1 {
      assert p[1..] + q == q;
    } else {
      JoinedConcat(p[1..], q);
      assert p[0] + "." + (Joined(p[1..]) + "." + Joined(q)) == p[0] + "." + Joined(p[1..]) + "." + Joined(q);
    }
  }

  /** Splitting a key at any of its dots splits its path there. */
  lemma {:induction false} SplitConcat(a: string, b: string)
    ensures Split(a + "." + b) == Split(a) + Split(b)
  {
    JoinedSplit(a);
    JoinedSplit(b);
    JoinedConcat(Split(a), Split(b));
    SplitJoined(Split(a) + Split(b));
  }

  /** One path lies above another exactly if its key and a dot start the other's key. */
  lemma {:induction false} DottedPrefix(p: Path, q: Path)
    requires p != [] && q != [] && Dotless(p) && Dotless(q)
    ensures p < q <==> Joined(p) + "." <= Joined(q)
  {
    if p < q {
      assert q == p + q[|p|..];
      JoinedConcat(p, q[|p|..]);
    }
    if Joined(p) + "." <= Joined(q) {
      var rest := Joined(q)[|Joined(p)| + 1..];
      assert Joined(q) == Joined(p) + "." + rest;
      SplitConcat(Joined(p), rest);
      SplitJoined(p);
      SplitJoined(q);
    }
  }
}
