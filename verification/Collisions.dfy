/** The collision rules in closed form: which value each path of the resolved tree ends up with, said
    without replaying any write. */
module Collisions {
  import opened Wrappers
  import opened Json
  import opened Resolution

  /** The value placed at `t` last. */
  function LastAt(placed: seq<Placed>, t: Path): Option<Value> {
    if placed == [] then None
    else
      var n := |placed| - 1;
      if placed[n].path == t then Some(placed[n].value) else LastAt(placed[..n], t)
  }

  function PathsOf(placed: seq<Placed>): set<Path> {
    set i | 0 <= i < |placed| :: placed[i].path
  }

  function Elements(paths: seq<Path>): set<Path> {
    set i | 0 <= i < |paths| :: paths[i]
  }

  ghost predicate Shadowed(inPlace: seq<Placed>, t: Path) {
    exists i :: 0 <= i < |inPlace| && inPlace[i].path < t
  }

  /** The value that wins at `t`: the one in place; else, unless a value in place sits above `t`, the
      respelling written last. */
  ghost function Claim(inPlace: seq<Placed>, moved: seq<Placed>, t: Path): Option<Value> {
    if LastAt(inPlace, t).Some? then LastAt(inPlace, t)
    else if Shadowed(inPlace, t) then None
    else LastAt(moved, t)
  }

  ghost function Claims(inPlace: seq<Placed>, moved: seq<Placed>): map<Path, Value> {
    map t | t in PathsOf(inPlace) + PathsOf(moved) && Claim(inPlace, moved, t).Some? ::
      Claim(inPlace, moved, t).value
  }

  /** A null stays if no claim and no section touches its path. */
  ghost predicate NullStays(claims: map<Path, Value>, sections: set<Path>, n: Path) {
    !Under(claims, n) && !Above(claims, n) && !Opens(sections, n)
  }

  ghost function KeptNulls(claims: map<Path, Value>, sections: set<Path>, nulls: set<Path>): set<Path> {
    set n | n in nulls && NullStays(claims, sections, n)
  }

  ghost function WithNulls(claims: map<Path, Value>, kept: set<Path>): map<Path, Value> {
    claims + map n | n in kept :: Null
  }

  /** Everything the resolved tree holds, besides empty sections. */
  ghost function FinalClaims(inPlace: seq<Placed>, moved: seq<Placed>, sections: seq<Path>, nulls: seq<Path>)
    : map<Path, Value>
  {
    var claims := Claims(inPlace, moved);
    WithNulls(claims, KeptNulls(claims, Elements(sections), Elements(nulls)))
  }

  // What the gathering of a document guarantees about the four lists. Nothing but a value that is in
  // place and not an object sits above anything else.

  ghost predicate InPlaceApart(inPlace: seq<Placed>) {
    && (forall i :: 0 <= i < |inPlace| ==> inPlace[i].path != [])
    && (forall i, j :: 0 <= i < j < |inPlace| ==> !Comparable(inPlace[i].path, inPlace[j].path))
  }

  ghost predicate MovedApart(inPlace: seq<Placed>, moved: seq<Placed>) {
    && (forall i :: 0 <= i < |moved| ==> moved[i].path != [])
    && (forall i, j :: 0 <= i < |inPlace| && 0 <= j < |moved| ==>
          && !(moved[j].path < inPlace[i].path)
          && (inPlace[i].path < moved[j].path ==> !inPlace[i].value.Object?))
    && (forall i, j :: 0 <= i < |moved| && 0 <= j < |moved| ==> !(moved[i].path < moved[j].path))
  }

  /** No object is placed above any of `paths`. */
  ghost predicate Clear(inPlace: seq<Placed>, moved: seq<Placed>, paths: seq<Path>) {
    && (forall i, s :: 0 <= i < |inPlace| && 0 <= s < |paths| ==>
          (inPlace[i].path < paths[s] ==> !inPlace[i].value.Object?))
    && (forall i, s :: 0 <= i < |moved| && 0 <= s < |paths| ==> !(moved[i].path < paths[s]))
  }

  ghost predicate NullsApart(nulls: seq<Path>) {
    && (forall i :: 0 <= i < |nulls| ==> nulls[i] != [])
    && (forall i, j :: 0 <= i < j < |nulls| ==> !Comparable(nulls[i], nulls[j]))
  }

  ghost predicate Coherent(inPlace: seq<Placed>, moved: seq<Placed>, sections: seq<Path>, nulls: seq<Path>) {
    && InPlaceApart(inPlace)
    && MovedApart(inPlace, moved)
    && Clear(inPlace, moved, sections)
    && Clear(inPlace, moved, nulls)
    && NullsApart(nulls)
  }

  // ---------- LastAt ----------

  lemma {:induction false} LastAtFound(placed: seq<Placed>, t: Path)
    ensures LastAt(placed, t).Some? <==> t in PathsOf(placed)
    ensures LastAt(placed, t).Some? ==>
              exists i :: 0 <= i < |placed| && placed[i].path == t && placed[i].value == LastAt(placed, t).value &&
                          forall j :: i < j < |placed| ==> placed[j].path != t
  {
    if placed != [] {
      var n := |placed| - 1;
      LastAtFound(placed[..n], t);
      if placed[n].path == t {
        assert t in PathsOf(placed);
      } else if LastAt(placed[..n], t).Some? {
        var i :| 0 <= i < n && placed[..n][i].path == t && placed[..n][i].value == LastAt(placed[..n], t).value &&
                 forall j :: i < j < n ==> placed[..n][j].path != t;
        assert placed[i].path == t;
        assert forall j :: i < j < n ==> placed[..n][j] == placed[j];
      } else {
        assert forall i :: 0 <= i < n ==> placed[..n][i] == placed[i];
        assert forall i :: 0 <= i < n ==> placed[..n][i].path in PathsOf(placed[..n]);
      }
    }
  }

  lemma {:induction false} LastAtPrepend(m: Placed, rest: seq<Placed>, t: Path)
    ensures LastAt([m] + rest, t) ==
            if LastAt(rest, t).Some? then LastAt(rest, t) else if m.path == t then Some(m.value) else None
  {
    if rest == [] {
      assert [m] + rest == [m] && [m][..0] == [];
      assert LastAt([], t) == None;
    } else {
      var n := |rest| - 1;
      assert ([m] + rest)[..n + 1] == [m] + rest[..n];
      LastAtPrepend(m, rest[..n], t);
    }
  }

  lemma ClaimsDomain(inPlace: seq<Placed>, moved: seq<Placed>)
    ensures forall t :: t in Claims(inPlace, moved) <==> Claim(inPlace, moved, t).Some?
    ensures forall t :: t in Claims(inPlace, moved) ==> Claims(inPlace, moved)[t] == Claim(inPlace, moved, t).value
  {
    forall t ensures t in Claims(inPlace, moved) <==> Claim(inPlace, moved, t).Some? {
      LastAtFound(inPlace, t);
      LastAtFound(moved, t);
    }
  }

  /** Where a claim came from. */
  lemma ClaimOrigin(inPlace: seq<Placed>, moved: seq<Placed>, t: Path)
    requires t in Claims(inPlace, moved)
    ensures (exists i :: 0 <= i < |inPlace| && inPlace[i].path == t && inPlace[i].value == Claims(inPlace, moved)[t])
         || (exists i :: 0 <= i < |moved| && moved[i].path == t && moved[i].value == Claims(inPlace, moved)[t])
  {
    ClaimsDomain(inPlace, moved);
    LastAtFound(inPlace, t);
    LastAtFound(moved, t);
  }

  lemma ClearClaims(inPlace: seq<Placed>, moved: seq<Placed>, paths: seq<Path>, s: Path)
    requires Clear(inPlace, moved, paths) && s in paths
    ensures forall a :: a in Claims(inPlace, moved) && a < s ==> !Claims(inPlace, moved)[a].Object?
  {
    forall a | a in Claims(inPlace, moved) && a < s ensures !Claims(inPlace, moved)[a].Object? {
      ClaimOrigin(inPlace, moved, a);
    }
  }

  // ---------- the phases ----------

  lemma ClaimsAppend(init: seq<Placed>, last: Placed)
    ensures Claims(init + [last], []) == Claims(init, [])[last.path := last.value]
  {
    var placed := init + [last];
    ClaimsDomain(placed, []);
    ClaimsDomain(init, []);
    assert placed[..|init|] == init;
    forall t ensures Claim(placed, [], t) == if t == last.path then Some(last.value) else Claim(init, [], t) {
      assert LastAt([], t) == None;
    }
  }

  lemma {:induction false} InPlaceHolds(inPlace: seq<Placed>)
    requires InPlaceApart(inPlace)
    ensures Holds(WriteInPlace(map[], inPlace), Claims(inPlace, []), {})
    ensures Antichain(Claims(inPlace, []))
  {
    if inPlace == [] {
      forall p ensures ShapeAt(Object(map[]), p) == Shown(Claims([], []), {}, p) {}
    } else {
      var n := |inPlace| - 1;
      var init, last := inPlace[..n], inPlace[n];
      InPlaceHolds(init);
      forall a | a in Claims(init, []) ensures !Comparable(a, last.path) {
        ClaimOrigin(init, [], a);
      }
      HoldsWrite(WriteInPlace(map[], init), Claims(init, []), {}, last.path, last.value);
      ClaimsAppend(init, last);
      assert inPlace == init + [last];
    }
  }

  /** A guarded write where every comparable claim is at the path, or above it and not an object. */
  lemma HoldsIfVacant(root: map<string, Value>, claims: map<Path, Value>, sections: set<Path>, q: Path, v: Value)
    requires Holds(root, claims, sections) && Antichain(claims) && q != []
    requires forall a :: a in claims && a < q ==> !claims[a].Object?
    ensures
      var claims' := if Under(claims, q) || Above(claims, q) || Opens(sections, q) then claims else claims[q := v];
      Holds(WriteIfVacant(root, q, v), claims', sections) && Antichain(claims')
  {
    HoldsVacant(root, claims, sections, q);
    if !Under(claims, q) && !Above(claims, q) && !Opens(sections, q) {
      HoldsWrite(root, claims, sections, q, v);
    }
  }

  lemma ClaimsPrepend(inPlace: seq<Placed>, m: Placed, done: seq<Placed>)
    ensures
      var before := Claims(inPlace, done);
      Claims(inPlace, [m] + done) ==
        if m.path in before || Shadowed(inPlace, m.path) then before else before[m.path := m.value]
  {
    ClaimsDomain(inPlace, done);
    ClaimsDomain(inPlace, [m] + done);
    forall t ensures LastAt([m] + done, t) ==
        if LastAt(done, t).Some? then LastAt(done, t) else if m.path == t then Some(m.value) else None
    { LastAtPrepend(m, done, t); }
  }

  /** Nothing is claimed at a respelled path's comparable places but the path itself and what shadows it. */
  lemma MovedNeighbours(inPlace: seq<Placed>, moved: seq<Placed>, k: nat)
    requires MovedApart(inPlace, moved) && k < |moved|
    ensures
      var claims, t := Claims(inPlace, moved[k + 1..]), moved[k].path;
      && !Above(claims, t)
      && (Under(claims, t) <==> t in claims || Shadowed(inPlace, t))
      && (forall a :: a in claims && a < t ==> !claims[a].Object?)
  {
    var done, t := moved[k + 1..], moved[k].path;
    var claims := Claims(inPlace, done);
    forall a | a in claims
      ensures !(t < a)
      ensures a < t ==> Shadowed(inPlace, t) && !claims[a].Object?
    {
      ClaimOrigin(inPlace, done, a);
    }
    if Shadowed(inPlace, t) {
      var i :| 0 <= i < |inPlace| && inPlace[i].path < t;
      LastAtFound(inPlace, inPlace[i].path);
      ClaimsDomain(inPlace, done);
      assert inPlace[i].path in claims && inPlace[i].path <= t;
    } else {
      assert t in claims ==> t <= t && Under(claims, t);
      if Under(claims, t) {
        assert Owner(claims, t) == t;
      }
    }
  }

  lemma MovedStep(root: map<string, Value>, inPlace: seq<Placed>, moved: seq<Placed>, k: nat)
    requires MovedApart(inPlace, moved) && k < |moved|
    requires Holds(root, Claims(inPlace, moved[k + 1..]), {}) && Antichain(Claims(inPlace, moved[k + 1..]))
    ensures Holds(WriteIfVacant(root, moved[k].path, moved[k].value), Claims(inPlace, moved[k..]), {})
    ensures Antichain(Claims(inPlace, moved[k..]))
  {
    MovedNeighbours(inPlace, moved, k);
    HoldsIfVacant(root, Claims(inPlace, moved[k + 1..]), {}, moved[k].path, moved[k].value);
    ClaimsPrepend(inPlace, moved[k], moved[k + 1..]);
    assert moved[k..] == [moved[k]] + moved[k + 1..];
  }

  /** The respelled values, last first: the first `k` are still to be written. */
  lemma {:induction false} MovedHolds(root: map<string, Value>, inPlace: seq<Placed>, moved: seq<Placed>, k: nat)
    requires MovedApart(inPlace, moved) && k <= |moved|
    requires Holds(root, Claims(inPlace, moved[k..]), {}) && Antichain(Claims(inPlace, moved[k..]))
    ensures Holds(WriteMoved(root, moved[..k]), Claims(inPlace, moved), {})
    ensures Antichain(Claims(inPlace, moved))
    decreases k
  {
    if k == 0 {
      assert moved[0..] == moved;
    } else {
      assert moved[..k][..k - 1] == moved[..k - 1];
      MovedStep(root, inPlace, moved, k - 1);
      MovedHolds(WriteIfVacant(root, moved[k - 1].path, moved[k - 1].value), inPlace, moved, k - 1);
    }
  }

  lemma {:induction false} SectionsHold(root: map<string, Value>, claims: map<Path, Value>, sections: seq<Path>)
    requires Holds(root, claims, {}) && Antichain(claims)
    requires forall s, a :: s in sections && a in claims && a < s ==> !claims[a].Object?
    ensures Holds(WriteEach(root, sections, Object(map[])), claims, Elements(sections))
  {
    if sections == [] {
      assert Elements(sections) == {};
    } else {
      var n := |sections| - 1;
      assert forall s :: s in sections[..n] ==> s in sections;
      assert sections[n] in sections;
      SectionsHold(root, claims, sections[..n]);
      HoldsSection(WriteEach(root, sections[..n], Object(map[])), claims, Elements(sections[..n]), sections[n]);
      assert Elements(sections) == Elements(sections[..n]) + {sections[n]};
    }
  }

  lemma NullsNeighbours(claims: map<Path, Value>, kept: set<Path>, n: Path)
    requires forall m :: m in kept ==> !Comparable(m, n)
    ensures Under(WithNulls(claims, kept), n) <==> Under(claims, n)
    ensures Above(WithNulls(claims, kept), n) <==> Above(claims, n)
  {}

  lemma KeptStep(claims: map<Path, Value>, sections: set<Path>, nulls: set<Path>, n: Path)
    ensures KeptNulls(claims, sections, nulls + {n}) ==
            KeptNulls(claims, sections, nulls) + if NullStays(claims, sections, n) then {n} else {}
  {}

  lemma WithNullsStep(claims: map<Path, Value>, kept: set<Path>, n: Path)
    ensures WithNulls(claims, kept + {n}) == WithNulls(claims, kept)[n := Null]
    ensures WithNulls(claims, kept + {}) == WithNulls(claims, kept)
  {}

  lemma NullsStep(root: map<string, Value>, claims: map<Path, Value>, sections: set<Path>, kept: set<Path>, n: Path)
    requires n != [] && forall m :: m in kept ==> !Comparable(m, n)
    requires forall a :: a in claims && a < n ==> !claims[a].Object?
    requires Holds(root, WithNulls(claims, kept), sections) && Antichain(WithNulls(claims, kept))
    ensures
      var claims' := if NullStays(claims, sections, n) then WithNulls(claims, kept)[n := Null] else WithNulls(claims, kept);
      Holds(WriteIfVacant(root, n, Null), claims', sections) && Antichain(claims')
  {
    NullsNeighbours(claims, kept, n);
    HoldsIfVacant(root, WithNulls(claims, kept), sections, n, Null);
  }

  lemma {:induction false} NullsHold(root: map<string, Value>, claims: map<Path, Value>, sections: set<Path>, nulls: seq<Path>)
    requires Holds(root, claims, sections) && Antichain(claims)
    requires NullsApart(nulls)
    requires forall n, a :: n in nulls && a in claims && a < n ==> !claims[a].Object?
    ensures
      var claims' := WithNulls(claims, KeptNulls(claims, sections, Elements(nulls)));
      Holds(WriteEach(root, nulls, Null), claims', sections) && Antichain(claims')
  {
    if nulls == [] {
      assert WithNulls(claims, KeptNulls(claims, sections, Elements(nulls))) == claims;
    } else {
      var k := |nulls| - 1;
      var init, n := nulls[..k], nulls[k];
      assert n in nulls && forall s :: s in init ==> s in nulls;
      NullsHold(root, claims, sections, init);
      assert Elements(nulls) == Elements(init) + {n};
      var kept := KeptNulls(claims, sections, Elements(init));
      NullsStep(WriteEach(root, init, Null), claims, sections, kept, n);
      KeptStep(claims, sections, Elements(init), n);
      WithNullsStep(claims, kept, n);
    }
  }

  /** Every path of the resolved tree shows what the collision rules say, whatever order the writes took. */
  lemma ResolvedHolds(inPlace: seq<Placed>, moved: seq<Placed>, sections: seq<Path>, nulls: seq<Path>)
    requires Coherent(inPlace, moved, sections, nulls)
    ensures
      var claims := FinalClaims(inPlace, moved, sections, nulls);
      Holds(Resolved(inPlace, moved, sections, nulls), claims, Elements(sections)) && Antichain(claims)
  {
    InPlaceHolds(inPlace);
    assert moved[|moved|..] == [] && moved[..|moved|] == moved;
    MovedHolds(WriteInPlace(map[], inPlace), inPlace, moved, |moved|);
    forall s | s in sections { ClearClaims(inPlace, moved, sections, s); }
    var values := WriteMoved(WriteInPlace(map[], inPlace), moved);
    SectionsHold(values, Claims(inPlace, moved), sections);
    forall n | n in nulls { ClearClaims(inPlace, moved, nulls, n); }
    NullsHold(WriteEach(values, sections, Object(map[])), Claims(inPlace, moved), Elements(sections), nulls);
  }

  // ---------- reading the resolved tree ----------

  /** A claim reads back whole. */
  lemma ClaimReadsBack(root: map<string, Value>, claims: map<Path, Value>, sections: set<Path>, a: Path)
    requires Holds(root, claims, sections) && Antichain(claims) && a in claims
    ensures At(Object(root), a) == Some(claims[a])
  {
    ShownUnder(claims, sections, a, a);
    assert ShapeAt(Object(root), a) == Shown(claims, sections, a);
    assert a[|a|..] == [];
    var found := At(Object(root), a).value;
    forall q ensures ShapeAt(found, q) == ShapeAt(claims[a], q) {
      AtConcat(Object(root), a, q);
      ShownUnder(claims, sections, a, a + q);
      assert ShapeAt(Object(root), a + q) == Shown(claims, sections, a + q);
      assert (a + q)[|a|..] == q;
    }
    SameShapes(found, claims[a]);
  }

  /** Below a claim, the tree shows what the claimed value holds. */
  lemma InsideClaim(root: map<string, Value>, claims: map<Path, Value>, sections: set<Path>, a: Path, p: Path)
    requires Holds(root, claims, sections) && Antichain(claims) && a in claims && a <= p
    ensures At(Object(root), p) == At(claims[a], p[|a|..])
  {
    ClaimReadsBack(root, claims, sections, a);
    AtConcat(Object(root), a, p[|a|..]);
    assert a + p[|a|..] == p;
  }

  lemma NullsAreNew(claims: map<Path, Value>, sections: set<Path>, nulls: set<Path>, a: Path)
    requires a in claims
    ensures a in WithNulls(claims, KeptNulls(claims, sections, nulls))
    ensures WithNulls(claims, KeptNulls(claims, sections, nulls))[a] == claims[a]
  {}

  lemma LastAtOnly(inPlace: seq<Placed>, v: Placed)
    requires InPlaceApart(inPlace) && v in inPlace
    ensures LastAt(inPlace, v.path) == Some(v.value)
  {}

  /** The value that wins at `t` is what the tree holds there. */
  lemma WinnerReadsBack(inPlace: seq<Placed>, moved: seq<Placed>, sections: seq<Path>, nulls: seq<Path>, t: Path)
    requires Coherent(inPlace, moved, sections, nulls)
    requires Claim(inPlace, moved, t).Some?
    ensures At(Object(Resolved(inPlace, moved, sections, nulls)), t) == Claim(inPlace, moved, t)
  {
    ResolvedHolds(inPlace, moved, sections, nulls);
    ClaimsDomain(inPlace, moved);
    NullsAreNew(Claims(inPlace, moved), Elements(sections), Elements(nulls), t);
    ClaimReadsBack(Resolved(inPlace, moved, sections, nulls), FinalClaims(inPlace, moved, sections, nulls), Elements(sections), t);
  }

  /** Nothing is below a value in place that shadows a respelling. */
  lemma ShadowedIsAbsent(inPlace: seq<Placed>, moved: seq<Placed>, sections: seq<Path>, nulls: seq<Path>, t: Path)
    requires Coherent(inPlace, moved, sections, nulls)
    requires t in PathsOf(moved) && Shadowed(inPlace, t)
    ensures At(Object(Resolved(inPlace, moved, sections, nulls)), t) == None
  {
    var i :| 0 <= i < |inPlace| && inPlace[i].path < t;
    var a, root := inPlace[i].path, Object(Resolved(inPlace, moved, sections, nulls));
    LastAtOnly(inPlace, inPlace[i]);
    WinnerReadsBack(inPlace, moved, sections, nulls, a);
    AtConcat(root, a, t[|a|..]);
    assert a + t[|a|..] == t;
  }
}
