/** The Agent's configuration stream, folded into a layer with provenance and into the by-key view. */
module ConfigStream {
  import opened Wrappers
  import opened Json
  import opened SourceTrees
  import R = Resolution

  datatype ConfigSetting = ConfigSetting(key: string, value: Value, provenance: Provenance) {
    function Place(): (p: Path)
      ensures p != []
    {
      Split(key)
    }

    function AsLeaf(): Node {
      Leaf(value, provenance)
    }
  }

  datatype ConfigUpdate = Snapshot(settings: seq<ConfigSetting>) | Partial(setting: ConfigSetting)

  // ---------- the layer with provenance ----------

  function FromSettings(settings: seq<ConfigSetting>): Node {
    if settings == [] then EMPTY
    else
      var n := |settings| - 1;
      Set(FromSettings(settings[..n]), settings[n].Place(), settings[n].AsLeaf())
  }

  method BuildFromSettings(settings: seq<ConfigSetting>) returns (tree: Node)
    ensures tree == FromSettings(settings)
    ensures PairwiseApart(settings) ==> forall s :: s in settings ==> Get(tree, s.Place()) == Some(Leaf(s.value, s.provenance))
  {
    tree := EMPTY;
    for i := 0 to |settings|
      invariant tree == FromSettings(settings[..i])
    {
      assert settings[..i + 1][..i] == settings[..i];
      tree := SetInPlace(tree, settings[i].key, settings[i].AsLeaf());
    }
    assert settings[..|settings|] == settings;
    forall s | PairwiseApart(settings) && s in settings ensures Get(tree, s.Place()) == Some(Leaf(s.value, s.provenance)) {
      JoinedSplit(s.key);
      SnapshotHolds(settings, s, s.Place());
    }
  }

  function Fold(agent: Node, update: ConfigUpdate): Node {
    match update
    case Snapshot(settings) => FromSettings(settings)
    case Partial(setting) => Set(agent, setting.Place(), setting.AsLeaf())
  }

  // ---------- a snapshot with incomparable keys ----------

  ghost predicate PairwiseApart(settings: seq<ConfigSetting>) {
    forall i, j :: 0 <= i < j < |settings| ==> !Comparable(settings[i].Place(), settings[j].Place())
  }

  ghost predicate SettingAt(settings: seq<ConfigSetting>, s: ConfigSetting, p: Path) {
    s in settings && s.Place() == p
  }

  ghost predicate SettingBelow(settings: seq<ConfigSetting>, p: Path) {
    exists s :: s in settings && p < s.Place()
  }

  /** What a snapshot's layer shows, said without the order the settings came in. */
  ghost predicate ShowsSettings(settings: seq<ConfigSetting>, p: Path, view: View) {
    if exists s :: SettingAt(settings, s, p) then
      forall s :: SettingAt(settings, s, p) ==> view == Setting(s.AsLeaf())
    else if p == [] || SettingBelow(settings, p) then view == Inner
    else view == Nothing
  }

  lemma ApartFromLast(settings: seq<ConfigSetting>, n: nat)
    requires PairwiseApart(settings) && |settings| == n + 1
    ensures PairwiseApart(settings[..n]) && settings == settings[..n] + [settings[n]]
    ensures forall s :: s in settings[..n] ==> !Comparable(s.Place(), settings[n].Place())
  {}

  lemma {:induction false} SnapshotViews(settings: seq<ConfigSetting>, p: Path)
    requires PairwiseApart(settings)
    ensures ShowsSettings(settings, p, ViewAt(FromSettings(settings), p))
  {
    if settings != [] {
      var n := |settings| - 1;
      var init, last := settings[..n], settings[n];
      ApartFromLast(settings, n);
      SnapshotViews(init, p);
      SetViews(FromSettings(init), last.Place(), last.AsLeaf(), p);
      ShowsStep(init, last, p, ViewAt(FromSettings(init), p), ViewAt(FromSettings(settings), p));
    }
  }

  /** A key addresses the path it spells. */
  lemma PlaceSpelled(setting: ConfigSetting, p: Path)
    requires p != [] && Dotless(p) && setting.key == Joined(p)
    ensures setting.Place() == p
  {
    SplitJoined(p);
  }

  /** Every setting of such a snapshot is in its layer, with its own value and provenance, at the path its key
      spells. */
  lemma {:induction false} SnapshotHolds(settings: seq<ConfigSetting>, s: ConfigSetting, p: Path)
    requires PairwiseApart(settings) && s in settings
    requires p != [] && Dotless(p) && s.key == Joined(p)
    ensures Get(FromSettings(settings), p) == Some(Leaf(s.value, s.provenance))
  {
    PlaceSpelled(s, p);
    SnapshotViews(settings, p);
    assert SettingAt(settings, s, p);
  }

  lemma ShowsStep(init: seq<ConfigSetting>, last: ConfigSetting, p: Path, before: View, after: View)
    requires forall s :: s in init ==> !Comparable(s.Place(), last.Place())
    requires ShowsSettings(init, p, before)
    requires p == last.Place() ==> after == Setting(last.AsLeaf())
    requires p < last.Place() ==> after == Inner
    requires last.Place() < p ==> after == Nothing
    requires !Comparable(last.Place(), p) ==> after == before
    ensures ShowsSettings(init + [last], p, after)
  {
    var all := init + [last];
    forall s | s in init
      ensures p <= last.Place() ==> s.Place() != p
      ensures last.Place() <= p ==> !Comparable(s.Place(), p)
    {
      Diverge(s.Place(), last.Place(), p);
    }
    assert forall s :: s in all <==> s in init || s == last;
    if p < last.Place() {
      assert last in all && p < last.Place();
    } else if !Comparable(last.Place(), p) {
      assert (exists s :: SettingAt(all, s, p)) <==> (exists s :: SettingAt(init, s, p)) by {
        if s :| SettingAt(init, s, p) { assert SettingAt(all, s, p); }
        if s :| SettingAt(all, s, p) { assert SettingAt(init, s, p); }
      }
      assert forall s :: SettingAt(all, s, p) ==> SettingAt(init, s, p);
      assert SettingBelow(all, p) <==> SettingBelow(init, p) by {
        if SettingBelow(init, p) { var s :| s in init && p < s.Place(); assert s in all; }
      }
    } else if p == last.Place() {
      assert SettingAt(all, last, p);
      assert forall s :: SettingAt(all, s, p) ==> s == last;
    }
  }

  /** The order of a snapshot whose keys are pairwise incomparable makes no difference. */
  lemma SnapshotOrder(a: seq<ConfigSetting>, b: seq<ConfigSetting>)
    requires PairwiseApart(a) && PairwiseApart(b) && forall s :: s in a <==> s in b
    ensures FromSettings(a) == FromSettings(b)
  {
    forall p ensures ViewAt(FromSettings(a), p) == ViewAt(FromSettings(b), p) {
      SnapshotViews(a, p);
      SnapshotViews(b, p);
      assert forall s :: SettingAt(a, s, p) <==> SettingAt(b, s, p);
      if s :| SettingAt(a, s, p) {
        assert SettingAt(b, s, p);
      } else {
        assert SettingBelow(a, p) <==> SettingBelow(b, p);
      }
    }
    SameViews(FromSettings(a), FromSettings(b));
  }

  // ---------- the by-key view ----------

  function FieldsOrNone(v: Value): map<string, Value> {
    if v.Object? then v.fields else map[]
  }

  /** `value` put at `p`, keeping every other entry of every object on the way. */
  function Upserted(root: Value, p: Path, value: Value): Value {
    Object(R.Write(FieldsOrNone(root), p, value))
  }

  /** Makes sure the child at `k` exists and is an object. */
  function WithObjectAt(node: map<string, Value>, k: string): (r: map<string, Value>)
    ensures k in r && r[k].Object?
  {
    if k in node && node[k].Object? then node else node[k := Object(map[])]
  }

  lemma UpsertStep(current: map<string, Value>, path: Path, value: Value)
    requires |path| > 1
    ensures
      var node := WithObjectAt(current, path[0]);
      R.Write(current, path, value) == node[path[0] := Object(R.Write(node[path[0]].fields, path[1..], value))]
  {}

  /** `upsert`, as the walk it is. */
  method Upsert(root: Value, key: string, value: Value) returns (result: Value)
    ensures result == Upserted(root, Split(key), value)
  {
    var segments := Split(key);
    var current, frames := FieldsOrNone(root), [];
    var i := 0;
    while i < |segments| - 1
      invariant 0 <= i <= |segments| - 1
      invariant R.Write(FieldsOrNone(root), segments, value) == R.Plug(frames, R.Write(current, segments[i..], value))
    {
      var segment := segments[i];
      assert segments[i..][0] == segment && segments[i..][1..] == segments[i + 1..];
      var node := WithObjectAt(current, segment);
      UpsertStep(current, segments[i..], value);
      R.PlugPush(frames, node, segment, R.Write(node[segment].fields, segments[i + 1..], value));
      frames := frames + [R.Frame(node, segment)];
      current := node[segment].fields;
      i := i + 1;
    }
    result := Object(R.Plug(frames, current[segments[i] := value]));
  }

  function StateOf(settings: seq<ConfigSetting>): Value {
    if settings == [] then Object(map[])
    else
      var n := |settings| - 1;
      Upserted(StateOf(settings[..n]), settings[n].Place(), settings[n].value)
  }

  /** A snapshot replaces the state; a partial update sets one key, unless the state is neither an object nor
      null. */
  function ApplyToState(state: Value, update: ConfigUpdate): Value {
    match update
    case Snapshot(settings) => StateOf(settings)
    case Partial(setting) =>
      if state.Object? || state == Null then Upserted(state, setting.Place(), setting.value) else state
  }

  // ---------- the two views of one stream ----------

  /** No value the walk to `p` passes through has an entry off that walk. */
  ghost predicate NothingLost(n: Node, p: Path) {
    forall u, q :: u < p && ViewAt(n, u).Setting? && ShapeAt(ViewAt(n, u).leaf.value, q) != Absent ==> Comparable(u + q, p)
  }

  lemma {:induction false} WriteIntoEmpty(root: map<string, Value>, p: Path, v: Value)
    requires p != []
    ensures R.Write(root, p, v) == R.Write(map[], p, v) <==>
            forall q :: ShapeAt(Object(root), q) != Absent ==> Comparable(q, p)
  {
    var into, alone := Object(R.Write(root, p, v)), Object(R.Write(map[], p, v));
    forall q ensures ShapeAt(into, q) == ShapeAt(alone, q) <==> (ShapeAt(Object(root), q) == Absent || Comparable(q, p)) {
      R.WriteShapes(root, p, v, q);
      R.WriteShapes(map[], p, v, q);
      assert q != [] ==> ShapeAt(Object(map[]), q) == Absent;
      assert q == [] ==> q <= p;
    }
    if forall q :: ShapeAt(Object(root), q) != Absent ==> Comparable(q, p) {
      SameShapes(into, alone);
    }
  }

  lemma NothingLostLeaf(n: Node, p: Path)
    requires n.Leaf? && p != []
    ensures NothingLost(n, p) <==> forall q :: ShapeAt(n.value, q) != Absent ==> Comparable(q, p)
  {
    assert ViewAt(n, []) == Setting(n) && [] < p;
    if NothingLost(n, p) {
      forall q | ShapeAt(n.value, q) != Absent ensures Comparable(q, p) {
        assert [] + q == q;
      }
    } else {
      var u, q :| u < p && ViewAt(n, u).Setting? && ShapeAt(ViewAt(n, u).leaf.value, q) != Absent && !Comparable(u + q, p);
      assert u == [] && [] + q == q;
    }
  }

  lemma TailWalk(n: Node, p: Path, u: Path, q: Path)
    requires n.Section? && |p| > 1 && u < p && u != []
    ensures u[1..] < p[1..]
    ensures ViewAt(n, u).Setting? ==> ViewAt(n, u) == ViewAt(ChildOr(n.children, p[0]), u[1..])
    ensures Comparable(u + q, p) <==> Comparable(u[1..] + q, p[1..])
  {}

  lemma NothingLostSection(n: Node, p: Path)
    requires n.Section? && |p| > 1
    ensures NothingLost(n, p) <==> NothingLost(ChildOr(n.children, p[0]), p[1..])
  {
    var child := ChildOr(n.children, p[0]);
    if NothingLost(n, p) {
      forall u, q | u < p[1..] && ViewAt(child, u).Setting? && ShapeAt(ViewAt(child, u).leaf.value, q) != Absent
        ensures Comparable(u + q, p[1..])
      {
        var up := [p[0]] + u;
        GetCons(n, p[0], u);
        assert up < p && up[1..] == u;
        TailWalk(n, p, up, q);
        assert Comparable(up + q, p);
      }
    } else {
      var u, q :| u < p && ViewAt(n, u).Setting? && ShapeAt(ViewAt(n, u).leaf.value, q) != Absent && !Comparable(u + q, p);
      TailWalk(n, p, u, q);
    }
  }

  lemma SameUpdate<T>(m: map<string, T>, k: string, a: T, b: T)
    ensures m[k := a] == m[k := b] <==> a == b
  {
    assert m[k := a][k] == a && m[k := b][k] == b;
  }

  lemma ToValueSet(children: map<string, Node>, k: string, child: Node)
    ensures ToValue(Section(children[k := child])) == Object(ToValue(Section(children)).fields[k := ToValue(child)])
  {}

  /** Setting a key in the layer and upserting it in the by-key view agree exactly when the layer's walk
      loses nothing that the view's walk keeps. */
  lemma {:induction false} SetAgreesWithUpsert(n: Node, p: Path, leaf: Node)
    requires p != [] && leaf.Leaf?
    ensures ToValue(Set(n, p, leaf)) == Upserted(ToValue(n), p, leaf.value) <==> NothingLost(n, p)
    decreases |p|
  {
    match n
    case Leaf(value, _) =>
      NothingLostLeaf(n, p);
      SetIntoEmpty(p, leaf);
      assert Set(n, p, leaf) == Set(EMPTY, p, leaf);
      WriteIntoEmpty(FieldsOrNone(value), p, leaf.value);
      if value.Object? {
        assert Object(FieldsOrNone(value)) == value;
      } else {
        assert forall q :: ShapeAt(value, q) != Absent ==> q == [];
      }
    case Section(children) =>
      if |p| == 1 {
        ToValueSet(children, p[0], leaf);
        forall u | u < p ensures !ViewAt(n, u).Setting? {
          assert u == [];
        }
      } else {
        var child := ChildOr(children, p[0]);
        ToValueSet(children, p[0], Set(child, p[1..], leaf));
        NothingLostSection(n, p);
        SetAgreesWithUpsert(child, p[1..], leaf);
        SectionFields(children, p[0]);
        SameUpdate(ToValue(n).fields, p[0], ToValue(Set(child, p[1..], leaf)), Upserted(ToValue(child), p[1..], leaf.value));
      }
  }

  lemma SectionFields(children: map<string, Node>, k: string)
    ensures R.FieldsOf(ToValue(Section(children)).fields, k) == FieldsOrNone(ToValue(ChildOr(children, k)))
  {}

  lemma {:induction false} SetIntoEmpty(p: Path, leaf: Node)
    requires p != [] && leaf.Leaf?
    ensures ToValue(Set(EMPTY, p, leaf)) == Object(R.Write(map[], p, leaf.value))
    decreases |p|
  {
    assert ToValue(EMPTY).fields == map[];
    if |p| == 1 {
      ToValueSet(map[], p[0], leaf);
    } else {
      ToValueSet(map[], p[0], Set(EMPTY, p[1..], leaf));
      SetIntoEmpty(p[1..], leaf);
    }
  }

  /** No place is a proper prefix of another. */
  ghost predicate PrefixFree(places: set<Path>) {
    forall p, q :: p in places && q in places ==> !(p < q)
  }

  ghost predicate Keyed(update: ConfigUpdate, places: set<Path>) {
    match update
    case Snapshot(settings) => forall s :: s in settings ==> s.Place() in places
    case Partial(setting) => setting.Place() in places
  }

  /** Every value of a layer sits at one of `places`. */
  ghost predicate LeavesAt(n: Node, places: set<Path>) {
    forall p :: ViewAt(n, p).Setting? ==> p in places
  }

  lemma SetLeavesAt(n: Node, p: Path, leaf: Node, places: set<Path>)
    requires LeavesAt(n, places) && p in places && p != [] && leaf.Leaf?
    ensures LeavesAt(Set(n, p, leaf), places)
  {
    forall q | ViewAt(Set(n, p, leaf), q).Setting? ensures q in places {
      SetViews(n, p, leaf, q);
      assert Comparable(p, q) && |p| == |q| ==> p == q;
    }
  }

  lemma StepAgrees(n: Node, s: ConfigSetting, places: set<Path>)
    requires PrefixFree(places) && LeavesAt(n, places) && s.Place() in places
    ensures ToValue(Set(n, s.Place(), s.AsLeaf())) == Upserted(ToValue(n), s.Place(), s.value)
    ensures LeavesAt(Set(n, s.Place(), s.AsLeaf()), places)
  {
    SetAgreesWithUpsert(n, s.Place(), s.AsLeaf());
    SetLeavesAt(n, s.Place(), s.AsLeaf(), places);
  }

  lemma {:induction false} SnapshotAgrees(settings: seq<ConfigSetting>, places: set<Path>)
    requires PrefixFree(places) && forall s :: s in settings ==> s.Place() in places
    ensures ToValue(FromSettings(settings)) == StateOf(settings)
    ensures LeavesAt(FromSettings(settings), places)
  {
    if settings == [] {
      assert ToValue(EMPTY) == Object(map[]);
      assert forall p :: !ViewAt(EMPTY, p).Setting?;
    } else {
      var n := |settings| - 1;
      SnapshotAgrees(settings[..n], places);
      assert settings[n] in settings;
      StepAgrees(FromSettings(settings[..n]), settings[n], places);
    }
  }

  function FoldAll(agent: Node, updates: seq<ConfigUpdate>): Node {
    if updates == [] then agent
    else
      var n := |updates| - 1;
      Fold(FoldAll(agent, updates[..n]), updates[n])
  }

  function ApplyAll(state: Value, updates: seq<ConfigUpdate>): Value {
    if updates == [] then state
    else
      var n := |updates| - 1;
      ApplyToState(ApplyAll(state, updates[..n]), updates[n])
  }

  /** Over a whole stream in which no key is a proper prefix of another, both views hold the same values after
      every update. */
  lemma {:induction false} ViewsAgree(updates: seq<ConfigUpdate>, places: set<Path>)
    requires PrefixFree(places) && forall i :: 0 <= i < |updates| ==> Keyed(updates[i], places)
    ensures LeavesAt(FoldAll(EMPTY, updates), places)
    ensures updates != [] ==> ToValue(FoldAll(EMPTY, updates)) == ApplyAll(Null, updates)
  {
    if updates == [] {
      assert forall p :: !ViewAt(EMPTY, p).Setting?;
    } else {
      var n := |updates| - 1;
      ViewsAgree(updates[..n], places);
      var agent, state := FoldAll(EMPTY, updates[..n]), ApplyAll(Null, updates[..n]);
      match updates[n]
      case Snapshot(settings) => SnapshotAgrees(settings, places);
      case Partial(setting) =>
        StepAgrees(agent, setting, places);
        if n == 0 {
          assert ToValue(EMPTY) == Object(map[]);
        } else {
          AgentIsSection(EMPTY, updates[..n]);
        }
    }
  }

  lemma {:induction false} AgentIsSection(agent: Node, updates: seq<ConfigUpdate>)
    requires agent.Section?
    ensures FoldAll(agent, updates).Section?
  {}

  // ---------- what the Agent last said ----------

  /** The setting that a list gives a key last. */
  function LastFor(settings: seq<ConfigSetting>, key: string): Option<ConfigSetting> {
    if settings == [] then None
    else
      var n := |settings| - 1;
      if settings[n].key == key then Some(settings[n]) else LastFor(settings[..n], key)
  }

  /** The last word of a stream on a key: nothing from before a snapshot counts. */
  function Latest(updates: seq<ConfigUpdate>, key: string): Option<ConfigSetting> {
    if updates == [] then None
    else
      var n := |updates| - 1;
      match updates[n]
      case Snapshot(settings) => LastFor(settings, key)
      case Partial(setting) => if setting.key == key then Some(setting) else Latest(updates[..n], key)
  }

  /** What a layer shows of a key, when `said` was the last word on it. */
  ghost predicate Says(said: Option<ConfigSetting>, view: View) {
    match said
    case None => view == Nothing
    case Some(s) => view == Setting(Leaf(s.value, s.provenance))
  }

  lemma {:induction false} SetSays(n: Node, s: ConfigSetting, places: set<Path>, p: Path, said: Option<ConfigSetting>)
    requires PrefixFree(places) && s.Place() in places && p in places && p != [] && Dotless(p)
    requires Says(said, ViewAt(n, p))
    ensures Says(if s.key == Joined(p) then Some(s) else said, ViewAt(Set(n, s.Place(), s.AsLeaf()), p))
  {
    SetViews(n, s.Place(), s.AsLeaf(), p);
    if s.key == Joined(p) {
      PlaceSpelled(s, p);
    } else {
      JoinedSplit(s.key);
      assert s.Place() != p;
    }
  }

  lemma {:induction false} SnapshotSays(settings: seq<ConfigSetting>, places: set<Path>, p: Path)
    requires PrefixFree(places) && (forall s :: s in settings ==> s.Place() in places)
    requires p in places && p != [] && Dotless(p)
    ensures Says(LastFor(settings, Joined(p)), ViewAt(FromSettings(settings), p))
  {
    if settings != [] {
      var n := |settings| - 1;
      SnapshotSays(settings[..n], places, p);
      assert settings[n] in settings;
      SetSays(FromSettings(settings[..n]), settings[n], places, p, LastFor(settings[..n], Joined(p)));
    }
  }

  /** Where no key is a proper prefix of another, the layer of a whole stream holds the last word on every key, with
      its provenance, and nothing else. */
  lemma {:induction false} LayerSaysLatest(updates: seq<ConfigUpdate>, places: set<Path>, p: Path)
    requires PrefixFree(places) && (forall i :: 0 <= i < |updates| ==> Keyed(updates[i], places))
    requires p in places && p != [] && Dotless(p)
    ensures Says(Latest(updates, Joined(p)), ViewAt(FoldAll(EMPTY, updates), p))
  {
    if updates != [] {
      var n := |updates| - 1;
      match updates[n]
      case Snapshot(settings) => SnapshotSays(settings, places, p);
      case Partial(setting) =>
        LayerSaysLatest(updates[..n], places, p);
        SetSays(FoldAll(EMPTY, updates[..n]), setting, places, p, Latest(updates[..n], Joined(p)));
    }
  }
}
