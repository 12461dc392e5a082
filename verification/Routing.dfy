/** The dynamic API router: handlers asserted and withdrawn at run time, merged over a static base. */
module Routing {
  datatype Route = Route(path: string, verb: string)
  type Routes = set<Route>

  /** Whether two routes cannot both be in one router. */
  type Overlap = (Route, Route) -> bool

  ghost predicate Symmetric(overlaps: Overlap) {
    forall a, b :: overlaps(a, b) == overlaps(b, a)
  }

  predicate Clash(overlaps: Overlap, a: Routes, b: Routes) {
    exists x, y :: x in a && y in b && overlaps(x, y)
  }

  /** One entry of the insertion-ordered handler map. */
  datatype Handler = Handler(id: string, routes: Routes)

  // ---------- the handler map ----------

  ghost predicate Distinct(handlers: seq<Handler>) {
    forall i, j :: 0 <= i < j < |handlers| ==> handlers[i].id != handlers[j].id
  }

  /** The entries are exactly those of the map `m`, in some order. */
  ghost predicate Represents(handlers: seq<Handler>, m: map<string, Routes>) {
    && Distinct(handlers)
    && (forall i :: 0 <= i < |handlers| ==> handlers[i].id in m && m[handlers[i].id] == handlers[i].routes)
    && (forall id :: id in m ==> exists i :: 0 <= i < |handlers| && handlers[i].id == id)
  }

  /** The position of `id`, or the length if it has none. */
  function Position(handlers: seq<Handler>, id: string): (i: nat)
    ensures i <= |handlers| && (i < |handlers| ==> handlers[i].id == id)
    ensures forall j :: 0 <= j < i ==> handlers[j].id != id
  {
    if handlers == [] || handlers[0].id == id then 0 else 1 + Position(handlers[1..], id)
  }

  /** An id already there keeps its place; a new one goes last. */
  function Insert(handlers: seq<Handler>, h: Handler): seq<Handler> {
    var i := Position(handlers, h.id);
    if i < |handlers| then handlers[i := h] else handlers + [h]
  }

  /** The last entry takes the place of the one removed. */
  function SwapRemove(handlers: seq<Handler>, id: string): seq<Handler> {
    var i, n := Position(handlers, id), |handlers| - 1;
    if i == |handlers| then handlers else handlers[i := handlers[n]][..n]
  }

  lemma InsertRepresents(handlers: seq<Handler>, h: Handler, m: map<string, Routes>)
    requires Represents(handlers, m)
    ensures Represents(Insert(handlers, h), m[h.id := h.routes])
  {
    var i, after, next := Position(handlers, h.id), Insert(handlers, h), m[h.id := h.routes];
    assert after[i] == h && forall j :: 0 <= j < |handlers| && j != i ==> after[j] == handlers[j];
    forall id | id in next ensures exists j :: 0 <= j < |after| && after[j].id == id {
      if id == h.id {
        assert after[i].id == id;
      } else {
        var j :| 0 <= j < |handlers| && handlers[j].id == id;
        assert after[j].id == id;
      }
    }
  }

  /** `after` is `handlers` with the last in the place of the one at `i`. */
  ghost predicate LastMovedTo(handlers: seq<Handler>, i: nat, after: seq<Handler>) {
    && i < |handlers| == |after| + 1
    && forall j :: 0 <= j < |after| ==> after[j] == if j == i then handlers[|handlers| - 1] else handlers[j]
  }

  lemma {:induction false} SwapMoves(handlers: seq<Handler>, id: string)
    requires Position(handlers, id) < |handlers|
    ensures LastMovedTo(handlers, Position(handlers, id), SwapRemove(handlers, id))
  {}

  lemma MovedHasAll(handlers: seq<Handler>, i: nat, after: seq<Handler>, id: string)
    requires LastMovedTo(handlers, i, after) && handlers[i].id != id && exists j :: 0 <= j < |handlers| && handlers[j].id == id
    ensures exists j :: 0 <= j < |after| && after[j].id == id
  {
    var j :| 0 <= j < |handlers| && handlers[j].id == id;
    assert after[if j == |handlers| - 1 then i else j].id == id;
  }

  lemma MovedRepresents(handlers: seq<Handler>, i: nat, after: seq<Handler>, m: map<string, Routes>)
    requires Represents(handlers, m) && LastMovedTo(handlers, i, after)
    ensures Represents(after, m - {handlers[i].id})
  {
    forall id | id in m - {handlers[i].id} ensures exists j :: 0 <= j < |after| && after[j].id == id {
      MovedHasAll(handlers, i, after, id);
    }
  }

  lemma SwapRemoveRepresents(handlers: seq<Handler>, id: string, m: map<string, Routes>)
    requires Represents(handlers, m)
    ensures Represents(SwapRemove(handlers, id), m - {id})
  {
    var i := Position(handlers, id);
    if i < |handlers| {
      SwapMoves(handlers, id);
      MovedRepresents(handlers, i, SwapRemove(handlers, id), m);
    } else {
      assert m - {id} == m;
    }
  }

  // ---------- merging ----------

  /** Each handler is merged in its turn unless it overlaps what is there already. */
  function Merged(overlaps: Overlap, base: Routes, handlers: seq<Handler>): Routes {
    if handlers == [] then base
    else
      var n := |handlers| - 1;
      var merged := Merged(overlaps, base, handlers[..n]);
      if Clash(overlaps, merged, handlers[n].routes) then merged else merged + handlers[n].routes
  }

  /** Whether the handler at `i` is merged. */
  predicate Joins(overlaps: Overlap, base: Routes, handlers: seq<Handler>, i: nat)
    requires i < |handlers|
  {
    !Clash(overlaps, Merged(overlaps, base, handlers[..i]), handlers[i].routes)
  }

  method RebuildRouter(overlaps: Overlap, base: Routes, handlers: seq<Handler>) returns (merged: Routes)
    ensures merged == Merged(overlaps, base, handlers)
  {
    merged := base;
    for i := 0 to |handlers|
      invariant merged == Merged(overlaps, base, handlers[..i])
    {
      assert handlers[..i + 1][..i] == handlers[..i];
      if !Clash(overlaps, merged, handlers[i].routes) {
        merged := merged + handlers[i].routes;
      }
    }
    assert handlers[..|handlers|] == handlers;
  }

  lemma {:induction false} MergedGrows(overlaps: Overlap, base: Routes, handlers: seq<Handler>, i: nat)
    requires i <= |handlers|
    ensures base <= Merged(overlaps, base, handlers[..i]) <= Merged(overlaps, base, handlers)
    decreases |handlers|
  {
    if i < |handlers| {
      var n := |handlers| - 1;
      assert handlers[..n][..i] == handlers[..i];
      MergedGrows(overlaps, base, handlers[..n], i);
    } else {
      assert handlers[..i] == handlers;
      if handlers != [] {
        MergedGrows(overlaps, base, handlers[..|handlers| - 1], 0);
      }
    }
  }

  /** What was merged is served. */
  lemma {:induction false} JoinedIsServed(overlaps: Overlap, base: Routes, handlers: seq<Handler>, i: nat)
    requires i < |handlers| && Joins(overlaps, base, handlers, i)
    ensures handlers[i].routes <= Merged(overlaps, base, handlers)
  {
    assert handlers[..i + 1][..i] == handlers[..i];
    MergedGrows(overlaps, base, handlers, i + 1);
  }

  /** Nothing is served but the base and what was merged. */
  lemma {:induction false} ServedJoined(overlaps: Overlap, base: Routes, handlers: seq<Handler>, r: Route)
    requires r in Merged(overlaps, base, handlers) && r !in base
    ensures exists i :: 0 <= i < |handlers| && Joins(overlaps, base, handlers, i) && r in handlers[i].routes
    decreases |handlers|
  {
    var n := |handlers| - 1;
    if r in Merged(overlaps, base, handlers[..n]) {
      ServedJoined(overlaps, base, handlers[..n], r);
      var i :| 0 <= i < n && Joins(overlaps, base, handlers[..n], i) && r in handlers[..n][i].routes;
      assert handlers[..n][..i] == handlers[..i];
      assert Joins(overlaps, base, handlers, i);
    } else {
      assert Joins(overlaps, base, handlers, n);
    }
  }

  lemma ClashGrows(overlaps: Overlap, a: Routes, b: Routes, c: Routes)
    requires a <= b
    ensures Clash(overlaps, a, c) ==> Clash(overlaps, b, c)
  {}

  /** Merged handlers do not overlap one another. */
  lemma {:induction false} JoinedApart(overlaps: Overlap, base: Routes, handlers: seq<Handler>, i: nat, j: nat)
    requires i < j < |handlers| && Joins(overlaps, base, handlers, i) && Joins(overlaps, base, handlers, j)
    ensures !Clash(overlaps, handlers[i].routes, handlers[j].routes)
  {
    assert handlers[..j][..i] == handlers[..i];
    JoinedIsServed(overlaps, base, handlers[..j], i);
    ClashGrows(overlaps, handlers[i].routes, Merged(overlaps, base, handlers[..j]), handlers[j].routes);
  }

  /** Nor do they overlap the base. */
  lemma {:induction false} JoinedOffBase(overlaps: Overlap, base: Routes, handlers: seq<Handler>, i: nat)
    requires i < |handlers| && Joins(overlaps, base, handlers, i)
    ensures !Clash(overlaps, base, handlers[i].routes)
  {
    MergedGrows(overlaps, base, handlers[..i], 0);
    ClashGrows(overlaps, base, Merged(overlaps, base, handlers[..i]), handlers[i].routes);
  }

  /** A handler left out overlaps something that is served. */
  lemma {:induction false} SkippedClashes(overlaps: Overlap, base: Routes, handlers: seq<Handler>, i: nat)
    requires i < |handlers| && !Joins(overlaps, base, handlers, i)
    ensures Clash(overlaps, Merged(overlaps, base, handlers), handlers[i].routes)
  {
    MergedGrows(overlaps, base, handlers, i);
    ClashGrows(overlaps, Merged(overlaps, base, handlers[..i]), Merged(overlaps, base, handlers), handlers[i].routes);
  }

  // ---------- the event loop ----------

  datatype Update =
    | Asserted(id: string, endpoint: string, routes: Routes)
    | Retracted(id: string)
    | Message(id: string)

  /** The handlers a stream of updates leaves registered for one endpoint type. */
  function Registered(endpoint: string, updates: seq<Update>): map<string, Routes> {
    if updates == [] then map[]
    else
      var n := |updates| - 1;
      var before := Registered(endpoint, updates[..n]);
      match updates[n]
      case Asserted(id, kind, routes) => if kind == endpoint then before[id := routes] else before
      case Retracted(id) => before - {id}
      case Message(_) => before
  }

  predicate Asserts(endpoint: string, update: Update, id: string) {
    update.Asserted? && update.id == id && update.endpoint == endpoint
  }

  /** The update at `i` is the last word on `id`: an assertion that no later update replaces or retracts. */
  predicate LastWord(endpoint: string, updates: seq<Update>, i: nat, id: string)
    requires i < |updates|
  {
    && Asserts(endpoint, updates[i], id)
    && forall j :: i < j < |updates| ==> !Asserts(endpoint, updates[j], id) && updates[j] != Retracted(id)
  }

  /** An id is registered exactly when it was asserted for the endpoint and not retracted since, with the routes
      of its last assertion. */
  lemma {:induction false} RegisteredIff(endpoint: string, updates: seq<Update>, id: string)
    ensures id in Registered(endpoint, updates) <==> exists i :: 0 <= i < |updates| && LastWord(endpoint, updates, i, id)
    ensures forall i :: 0 <= i < |updates| && LastWord(endpoint, updates, i, id) ==> Registered(endpoint, updates)[id] == updates[i].routes
    decreases |updates|
  {
    if updates != [] {
      var n := |updates| - 1;
      var before := updates[..n];
      RegisteredIff(endpoint, before, id);
      if Asserts(endpoint, updates[n], id) {
        assert LastWord(endpoint, updates, n, id);
      } else if updates[n] != Retracted(id) {
        assert forall i :: 0 <= i < n ==> (LastWord(endpoint, updates, i, id) <==> LastWord(endpoint, before, i, id));
      }
    }
  }

  /** The handlers after one update. */
  function Next(endpoint: string, handlers: seq<Handler>, update: Update): seq<Handler> {
    match update
    case Asserted(id, kind, routes) => if kind == endpoint then Insert(handlers, Handler(id, routes)) else handlers
    case Retracted(id) => SwapRemove(handlers, id)
    case Message(_) => handlers
  }

  lemma {:induction false} NextRepresents(endpoint: string, handlers: seq<Handler>, seen: seq<Update>, update: Update)
    requires Represents(handlers, Registered(endpoint, seen))
    ensures Represents(Next(endpoint, handlers, update), Registered(endpoint, seen + [update]))
  {
    assert (seen + [update])[..|seen|] == seen;
    match update
    case Asserted(id, kind, routes) => InsertRepresents(handlers, Handler(id, routes), Registered(endpoint, seen));
    case Retracted(id) => SwapRemoveRepresents(handlers, id, Registered(endpoint, seen));
    case Message(_) =>
  }

  /** The handlers a whole stream leaves, in the order the map holds them. */
  function HandlersAfter(endpoint: string, updates: seq<Update>): seq<Handler> {
    if updates == [] then []
    else
      var n := |updates| - 1;
      Next(endpoint, HandlersAfter(endpoint, updates[..n]), updates[n])
  }

  /** In every run the handler map holds exactly the registered handlers. */
  lemma {:induction false} HandlersAreRegistered(endpoint: string, updates: seq<Update>)
    ensures Represents(HandlersAfter(endpoint, updates), Registered(endpoint, updates))
    decreases |updates|
  {
    if updates != [] {
      var n := |updates| - 1;
      HandlersAreRegistered(endpoint, updates[..n]);
      NextRepresents(endpoint, HandlersAfter(endpoint, updates[..n]), updates[..n], updates[n]);
      assert updates == updates[..n] + [updates[n]];
    }
  }

  class RouteLoop {
    const overlaps: Overlap
    const base: Routes
    const endpoint: string
    var handlers: seq<Handler>
    var inner: Routes

    /** The handlers are those that `seen` leaves, and the router in service is their merge into the base. */
    ghost predicate Reflects(seen: seq<Update>)
      reads this
    {
      handlers == HandlersAfter(endpoint, seen) && inner == Merged(overlaps, base, handlers)
    }

    /** A freshly seeded router. */
    constructor (overlaps: Overlap, base: Routes, endpoint: string)
      ensures this.overlaps == overlaps && this.base == base && this.endpoint == endpoint && Reflects([])
    {
      this.overlaps, this.base, this.endpoint := overlaps, base, endpoint;
      handlers, inner := [], base;
    }

    method Apply(update: Update, ghost seen: seq<Update>)
      requires Reflects(seen)
      modifies this
      ensures Reflects(seen + [update])
    {
      assert (seen + [update])[..|seen|] == seen;
      match update {
        case Asserted(id, kind, routes) =>
          if kind != endpoint {
            return;
          }
          handlers := Insert(handlers, Handler(id, routes));
        case Retracted(id) =>
          if Position(handlers, id) == |handlers| {
            return;
          }
          handlers := SwapRemove(handlers, id);
        case Message(_) =>
          return;
      }
      inner := RebuildRouter(overlaps, base, handlers);
    }

    method RunEventLoop(updates: seq<Update>, ghost seen: seq<Update>)
      requires Reflects(seen)
      modifies this
      ensures Reflects(seen + updates)
    {
      assert seen + updates[..0] == seen;
      for i := 0 to |updates|
        invariant Reflects(seen + updates[..i])
      {
        assert seen + updates[..i + 1] == seen + updates[..i] + [updates[i]];
        Apply(updates[i], seen + updates[..i]);
      }
      assert updates[..|updates|] == updates;
    }
  }

  // ---------- what is served, handler by handler ----------

  /** The ids of the handlers that were merged. */
  ghost function Accepted(overlaps: Overlap, base: Routes, handlers: seq<Handler>): set<string> {
    set i | 0 <= i < |handlers| && Joins(overlaps, base, handlers, i) :: handlers[i].id
  }

  lemma AcceptedAt(overlaps: Overlap, base: Routes, handlers: seq<Handler>, i: nat)
    requires Distinct(handlers) && i < |handlers|
    ensures handlers[i].id in Accepted(overlaps, base, handlers) <==> Joins(overlaps, base, handlers, i)
  {}

  /** The served routes are those of the base and of the accepted handlers, and no others. */
  lemma ServedRoutes(overlaps: Overlap, base: Routes, handlers: seq<Handler>, m: map<string, Routes>, r: Route)
    requires Represents(handlers, m)
    ensures Accepted(overlaps, base, handlers) <= m.Keys
    ensures r in Merged(overlaps, base, handlers) <==>
            r in base || exists id :: id in Accepted(overlaps, base, handlers) && r in m[id]
  {
    if r in Merged(overlaps, base, handlers) && r !in base {
      ServedJoined(overlaps, base, handlers, r);
      var i :| 0 <= i < |handlers| && Joins(overlaps, base, handlers, i) && r in handlers[i].routes;
      assert handlers[i].id in Accepted(overlaps, base, handlers);
    }
    MergedGrows(overlaps, base, handlers, 0);
    if id :| id in Accepted(overlaps, base, handlers) && r in m[id] {
      var i :| 0 <= i < |handlers| && Joins(overlaps, base, handlers, i) && handlers[i].id == id;
      JoinedIsServed(overlaps, base, handlers, i);
    }
  }

  /** No two accepted handlers overlap, and none overlaps the base. */
  lemma ServedApart(overlaps: Overlap, base: Routes, handlers: seq<Handler>, m: map<string, Routes>, a: string, b: string)
    requires Symmetric(overlaps) && Represents(handlers, m) && Accepted(overlaps, base, handlers) <= m.Keys
    requires a in Accepted(overlaps, base, handlers) && b in Accepted(overlaps, base, handlers)
    ensures !Clash(overlaps, base, m[a]) && (a != b ==> !Clash(overlaps, m[a], m[b]))
  {
    var i :| 0 <= i < |handlers| && Joins(overlaps, base, handlers, i) && handlers[i].id == a;
    var j :| 0 <= j < |handlers| && Joins(overlaps, base, handlers, j) && handlers[j].id == b;
    JoinedOffBase(overlaps, base, handlers, i);
    if i < j {
      JoinedApart(overlaps, base, handlers, i, j);
    } else if j < i {
      JoinedApart(overlaps, base, handlers, j, i);
      ClashSymmetric(overlaps, m[a], m[b]);
    }
  }

  lemma ClashSymmetric(overlaps: Overlap, a: Routes, b: Routes)
    requires Symmetric(overlaps)
    ensures Clash(overlaps, a, b) ==> Clash(overlaps, b, a)
  {}

  /** Something else that is served overlaps the handler. */
  ghost predicate Contested(overlaps: Overlap, base: Routes, accepted: set<string>, m: map<string, Routes>, id: string)
    requires accepted <= m.Keys && id in m
  {
    Clash(overlaps, base, m[id]) || exists other :: other in accepted && other != id && Clash(overlaps, m[other], m[id])
  }

  /** The handler overlaps neither the base nor any other that is registered. */
  ghost predicate Undisputed(overlaps: Overlap, base: Routes, m: map<string, Routes>, id: string)
    requires id in m
  {
    !Clash(overlaps, base, m[id]) && forall other :: other in m && other != id ==> !Clash(overlaps, m[other], m[id])
  }

  lemma SkippedContested(overlaps: Overlap, base: Routes, handlers: seq<Handler>, m: map<string, Routes>, id: string, i: nat)
    requires Represents(handlers, m) && Accepted(overlaps, base, handlers) <= m.Keys
    requires i < |handlers| && handlers[i].id == id && !Joins(overlaps, base, handlers, i)
    ensures Contested(overlaps, base, Accepted(overlaps, base, handlers), m, id)
  {
    SkippedClashes(overlaps, base, handlers, i);
    var x, y :| x in Merged(overlaps, base, handlers) && y in handlers[i].routes && overlaps(x, y);
    AcceptedAt(overlaps, base, handlers, i);
    ServedRoutes(overlaps, base, handlers, m, x);
    if x !in base {
      var other :| other in Accepted(overlaps, base, handlers) && x in m[other];
      assert Clash(overlaps, m[other], m[id]);
    }
  }

  /** A registered handler is left out exactly when something else that is served overlaps it. */
  lemma ServedMaximal(overlaps: Overlap, base: Routes, handlers: seq<Handler>, m: map<string, Routes>, id: string)
    requires Symmetric(overlaps) && Represents(handlers, m) && Accepted(overlaps, base, handlers) <= m.Keys && id in m
    ensures id !in Accepted(overlaps, base, handlers) <==> Contested(overlaps, base, Accepted(overlaps, base, handlers), m, id)
  {
    var i :| 0 <= i < |handlers| && handlers[i].id == id;
    AcceptedAt(overlaps, base, handlers, i);
    if Joins(overlaps, base, handlers, i) {
      forall other | other in Accepted(overlaps, base, handlers) && other != id ensures !Clash(overlaps, m[other], m[id]) {
        ServedApart(overlaps, base, handlers, m, other, id);
      }
      ServedApart(overlaps, base, handlers, m, id, id);
    } else {
      SkippedContested(overlaps, base, handlers, m, id, i);
    }
  }

  /** The whole run: the router served after any stream of updates holds the base and the accepted handlers and
      nothing else, a registered handler is accepted exactly if nothing else served overlaps it, and one that
      overlaps neither the base nor anything registered is always accepted. */
  lemma ServedByRun(overlaps: Overlap, base: Routes, endpoint: string, updates: seq<Update>)
    requires Symmetric(overlaps)
    ensures
      var handlers, m := HandlersAfter(endpoint, updates), Registered(endpoint, updates);
      var served, accepted := Merged(overlaps, base, handlers), Accepted(overlaps, base, handlers);
      && accepted <= m.Keys
      && (forall r :: r in served <==> r in base || exists id :: id in accepted && r in m[id])
      && (forall id :: id in m ==> (id !in accepted <==> Contested(overlaps, base, accepted, m, id)))
      && (forall id :: id in m && Undisputed(overlaps, base, m, id) ==> id in accepted)
  {
    var handlers, m := HandlersAfter(endpoint, updates), Registered(endpoint, updates);
    HandlersAreRegistered(endpoint, updates);
    forall r ensures r in Merged(overlaps, base, handlers) <==> r in base || exists id :: id in Accepted(overlaps, base, handlers) && r in m[id] {
      ServedRoutes(overlaps, base, handlers, m, r);
    }
    forall id | id in m ensures id !in Accepted(overlaps, base, handlers) <==> Contested(overlaps, base, Accepted(overlaps, base, handlers), m, id) {
      ServedMaximal(overlaps, base, handlers, m, id);
    }
  }

  // ---------- withdrawing a handler ----------

  lemma {:induction false} MergedLast(overlaps: Overlap, base: Routes, a: seq<Handler>, h: Handler)
    ensures Merged(overlaps, base, a + [h]) ==
            Merged(overlaps, base, a) + if Clash(overlaps, Merged(overlaps, base, a), h.routes) then {} else h.routes
  {
    assert (a + [h])[..|a|] == a;
  }

  lemma ClashUnion(overlaps: Overlap, a: Routes, b: Routes, c: Routes)
    ensures Clash(overlaps, a + b, c) <==> Clash(overlaps, a, c) || Clash(overlaps, b, c)
  {
    ClashGrows(overlaps, a, a + b, c);
    ClashGrows(overlaps, b, a + b, c);
  }

  lemma ClashNone(overlaps: Overlap, c: Routes)
    ensures !Clash(overlaps, {}, c)
  {}

  /** What `x` adds where it stands, if anything. */
  ghost function Added(overlaps: Overlap, base: Routes, a: seq<Handler>, x: Handler): Routes {
    if Clash(overlaps, Merged(overlaps, base, a), x.routes) then {} else x.routes
  }

  lemma AddedClash(overlaps: Overlap, base: Routes, a: seq<Handler>, x: Handler, c: Routes)
    requires !Clash(overlaps, x.routes, c)
    ensures !Clash(overlaps, Added(overlaps, base, a, x), c)
  {
    ClashNone(overlaps, c);
  }

  lemma AroundStep(overlaps: Overlap, merged: Routes, added: Routes, y: Routes)
    requires !Clash(overlaps, added, y)
    ensures merged + added + (if Clash(overlaps, merged + added, y) then {} else y) ==
            merged + (if Clash(overlaps, merged, y) then {} else y) + added
  {
    ClashUnion(overlaps, merged, added, y);
  }

  lemma LastOf(a: seq<Handler>, x: Handler, b: seq<Handler>)
    requires b != []
    ensures
      var n := |b| - 1;
      a + [x] + b == (a + [x] + b[..n]) + [b[n]] && a + b == (a + b[..n]) + [b[n]]
  {
    assert b == b[..|b| - 1] + [b[|b| - 1]];
  }

  /** A handler that overlaps none of those after it changes nothing for them. */
  lemma {:induction false} MergedAround(overlaps: Overlap, base: Routes, a: seq<Handler>, x: Handler, b: seq<Handler>)
    requires forall h :: h in b ==> !Clash(overlaps, x.routes, h.routes)
    ensures Merged(overlaps, base, a + [x] + b) == Merged(overlaps, base, a + b) + Added(overlaps, base, a, x)
    decreases |b|
  {
    if b == [] {
      MergedLast(overlaps, base, a, x);
      assert a + [x] + b == a + [x] && a + b == a;
    } else {
      var n := |b| - 1;
      MergedAround(overlaps, base, a, x, b[..n]);
      LastOf(a, x, b);
      MergedLast(overlaps, base, a + [x] + b[..n], b[n]);
      MergedLast(overlaps, base, a + b[..n], b[n]);
      AddedClash(overlaps, base, a, x, b[n].routes);
      AroundStep(overlaps, Merged(overlaps, base, a + b[..n]), Added(overlaps, base, a, x), b[n].routes);
    }
  }

  lemma RoomLeft(overlaps: Overlap, merged: Routes, y: Routes, z: Routes)
    requires Symmetric(overlaps)
    requires !Clash(overlaps, merged + (if Clash(overlaps, merged, y) then {} else y), z)
    ensures !Clash(overlaps, merged, z) && (Clash(overlaps, merged + z, y) <==> Clash(overlaps, merged, y))
  {
    ClashUnion(overlaps, merged, if Clash(overlaps, merged, y) then {} else y, z);
    ClashUnion(overlaps, merged, z, y);
    ClashSymmetric(overlaps, z, y);
  }

  /** A handler that what is served leaves room for can stand earlier, and changes nothing for the others. */
  lemma {:induction false} MergedEarlier(overlaps: Overlap, base: Routes, a: seq<Handler>, z: Handler, b: seq<Handler>)
    requires Symmetric(overlaps) && !Clash(overlaps, Merged(overlaps, base, a + b), z.routes)
    ensures Merged(overlaps, base, a + [z] + b) == Merged(overlaps, base, a + b) + z.routes
    decreases |b|
  {
    if b == [] {
      MergedLast(overlaps, base, a, z);
      assert a + [z] + b == a + [z] && a + b == a;
    } else {
      var n := |b| - 1;
      var last := b[n];
      assert b == b[..n] + [last];
      assert a + [z] + b == (a + [z] + b[..n]) + [last] && a + b == (a + b[..n]) + [last];
      MergedLast(overlaps, base, a + b[..n], last);
      RoomLeft(overlaps, Merged(overlaps, base, a + b[..n]), last.routes, z.routes);
      MergedEarlier(overlaps, base, a, z, b[..n]);
      MergedLast(overlaps, base, a + [z] + b[..n], last);
    }
  }

  lemma {:induction false} MergedSame(overlaps: Overlap, base: Routes, a: seq<Handler>, a': seq<Handler>, b: seq<Handler>)
    requires Merged(overlaps, base, a) == Merged(overlaps, base, a')
    ensures Merged(overlaps, base, a + b) == Merged(overlaps, base, a' + b)
    decreases |b|
  {
    if b == [] {
      assert a + b == a && a' + b == a';
    } else {
      var n := |b| - 1;
      MergedSame(overlaps, base, a, a', b[..n]);
      assert b == b[..n] + [b[n]];
      assert a + b == (a + b[..n]) + [b[n]] && a' + b == (a' + b[..n]) + [b[n]];
      MergedLast(overlaps, base, a + b[..n], b[n]);
      MergedLast(overlaps, base, a' + b[..n], b[n]);
    }
  }

  /** Whether the handler at `k` of `b`, which stand after `a`, is merged. */
  lemma JoinsAfter(overlaps: Overlap, base: Routes, a: seq<Handler>, b: seq<Handler>, rest: seq<Handler>, k: nat)
    requires k < |b|
    ensures Joins(overlaps, base, a + b + rest, |a| + k) <==> !Clash(overlaps, Merged(overlaps, base, a + b[..k]), b[k].routes)
  {
    assert (a + b + rest)[..|a| + k] == a + b[..k] && (a + b + rest)[|a| + k] == b[k];
  }

  /** The last handler `z` takes the place of `x` between `a` and `b`. A handler of `b` stays as it was if `z` was
      merged, or if what stands before keeps it out. */
  lemma {:induction false} MovedSafe(overlaps: Overlap, base: Routes, a: seq<Handler>, x: Handler, b: seq<Handler>, z: Handler, k: nat)
    requires Symmetric(overlaps) && (forall h :: h in b + [z] ==> !Clash(overlaps, x.routes, h.routes)) && k < |b|
    requires !Clash(overlaps, Merged(overlaps, base, a + [x] + b), z.routes) || Clash(overlaps, Merged(overlaps, base, a), z.routes)
    requires !Clash(overlaps, Merged(overlaps, base, a + [x] + b[..k]), b[k].routes)
    ensures !Clash(overlaps, Merged(overlaps, base, a + [z] + b[..k]), b[k].routes)
  {
    forall h | h in b[..k] || h in b ensures !Clash(overlaps, x.routes, h.routes) { assert h in b + [z]; }
    MergedAround(overlaps, base, a, x, b[..k]);
    ClashUnion(overlaps, Merged(overlaps, base, a + b[..k]), Added(overlaps, base, a, x), b[k].routes);
    if Clash(overlaps, Merged(overlaps, base, a), z.routes) {
      MergedLast(overlaps, base, a, z);
      MergedSame(overlaps, base, a + [z], a, b[..k]);
    } else {
      MergedAround(overlaps, base, a, x, b);
      ClashUnion(overlaps, Merged(overlaps, base, a + b), Added(overlaps, base, a, x), z.routes);
      RoomAt(overlaps, base, a, z, b, k);
    }
  }

  lemma {:induction false} RoomAt(overlaps: Overlap, base: Routes, a: seq<Handler>, z: Handler, b: seq<Handler>, k: nat)
    requires Symmetric(overlaps) && k < |b| && !Clash(overlaps, Merged(overlaps, base, a + b), z.routes)
    requires !Clash(overlaps, Merged(overlaps, base, a + b[..k]), b[k].routes)
    ensures !Clash(overlaps, Merged(overlaps, base, a + [z] + b[..k]), b[k].routes)
  {
    assert (a + b)[..|a| + k + 1] == (a + b[..k]) + [b[k]];
    MergedGrows(overlaps, base, a + b, |a| + k + 1);
    MergedLast(overlaps, base, a + b[..k], b[k]);
    ClashGrows(overlaps, Merged(overlaps, base, (a + b[..k]) + [b[k]]), Merged(overlaps, base, a + b), z.routes);
    RoomLeft(overlaps, Merged(overlaps, base, a + b[..k]), b[k].routes, z.routes);
    MergedEarlier(overlaps, base, a, z, b[..k]);
  }

  /** Otherwise some handler of `b` that was merged overlaps `z`, which now stands before it. */
  lemma {:induction false} MovedUnsafe(overlaps: Overlap, base: Routes, a: seq<Handler>, x: Handler, b: seq<Handler>, z: Handler) returns (k: nat)
    requires forall h :: h in b + [z] ==> !Clash(overlaps, x.routes, h.routes)
    requires Clash(overlaps, Merged(overlaps, base, a + [x] + b), z.routes) && !Clash(overlaps, Merged(overlaps, base, a), z.routes)
    ensures k < |b| && !Clash(overlaps, Merged(overlaps, base, a + [x] + b[..k]), b[k].routes)
    ensures Clash(overlaps, b[k].routes, z.routes)
  {
    forall h | h in b || h == z ensures !Clash(overlaps, x.routes, h.routes) { assert h in b + [z]; }
    MergedAround(overlaps, base, a, x, b);
    AddedClash(overlaps, base, a, x, z.routes);
    ClashUnion(overlaps, Merged(overlaps, base, a + b), Added(overlaps, base, a, x), z.routes);
    k := FirstOverlap(overlaps, base, a, b, z.routes);
    forall h | h in b[..k] ensures !Clash(overlaps, x.routes, h.routes) { assert h in b; }
    MergedAround(overlaps, base, a, x, b[..k]);
    AddedClash(overlaps, base, a, x, b[k].routes);
    ClashUnion(overlaps, Merged(overlaps, base, a + b[..k]), Added(overlaps, base, a, x), b[k].routes);
  }

  /** What is merged after `a` and overlaps `z` was merged with some handler of `b`. */
  lemma {:induction false} FirstOverlap(overlaps: Overlap, base: Routes, a: seq<Handler>, b: seq<Handler>, z: Routes) returns (k: nat)
    requires Clash(overlaps, Merged(overlaps, base, a + b), z) && !Clash(overlaps, Merged(overlaps, base, a), z)
    ensures k < |b| && !Clash(overlaps, Merged(overlaps, base, a + b[..k]), b[k].routes) && Clash(overlaps, b[k].routes, z)
    decreases |b|
  {
    assert b == [] ==> a + b == a;
    var n := |b| - 1;
    var last := b[n];
    assert b == b[..n] + [last] && a + b == (a + b[..n]) + [last];
    MergedLast(overlaps, base, a + b[..n], last);
    if Clash(overlaps, Merged(overlaps, base, a + b[..n]), z) {
      k := FirstOverlap(overlaps, base, a, b[..n], z);
      assert b[..n][..k] == b[..k];
    } else {
      k := n;
      ClashUnion(overlaps, Merged(overlaps, base, a + b[..n]), if Clash(overlaps, Merged(overlaps, base, a + b[..n]), last.routes) then {} else last.routes, z);
      ClashNone(overlaps, z);
    }
  }

  /** Every handler that was served, other than the one at `i`, is still served when that one is withdrawn. */
  ghost predicate OthersStayServed(overlaps: Overlap, base: Routes, handlers: seq<Handler>, i: nat)
    requires i < |handlers|
  {
    forall j :: 0 <= j < |handlers| && j != i && Joins(overlaps, base, handlers, j) ==>
                  handlers[j].id in Accepted(overlaps, base, SwapRemove(handlers, handlers[i].id))
  }

  /** The handler that takes the place of the one at `i` is that one, or is served already, or is kept out by what
      stands before it. */
  predicate SafeToWithdraw(overlaps: Overlap, base: Routes, handlers: seq<Handler>, i: nat)
    requires i < |handlers|
  {
    var n := |handlers| - 1;
    i == n || Joins(overlaps, base, handlers, n) || Clash(overlaps, Merged(overlaps, base, handlers[..i]), handlers[n].routes)
  }

  lemma Removed(handlers: seq<Handler>, i: nat)
    requires Distinct(handlers) && i < |handlers|
    ensures
      var n := |handlers| - 1;
      SwapRemove(handlers, handlers[i].id) == if i == n then handlers[..n] else handlers[..i] + [handlers[n]] + handlers[i + 1..n]
    ensures Distinct(SwapRemove(handlers, handlers[i].id))
  {
    assert Position(handlers, handlers[i].id) == i;
    SwapMoves(handlers, handlers[i].id);
  }

  lemma {:induction false} BeforeStays(overlaps: Overlap, base: Routes, one: seq<Handler>, other: seq<Handler>, j: nat)
    requires j < |one| && j < |other| && one[..j + 1] == other[..j + 1]
    ensures Joins(overlaps, base, one, j) <==> Joins(overlaps, base, other, j)
  {
    assert one[..j + 1][..j] == one[..j] && other[..j + 1][..j] == other[..j];
    assert one[..j + 1][j] == one[j] && other[..j + 1][j] == other[j];
  }

  /** What a withdrawal from the middle means, by position: the others keep theirs, and the last goes to `|a|`. */
  lemma {:induction false} MiddleSafe(overlaps: Overlap, base: Routes, a: seq<Handler>, x: Handler, b: seq<Handler>, z: Handler, j: nat)
    requires Symmetric(overlaps) && forall h :: h in b + [z] ==> !Clash(overlaps, x.routes, h.routes)
    requires !Clash(overlaps, Merged(overlaps, base, a + [x] + b), z.routes) || Clash(overlaps, Merged(overlaps, base, a), z.routes)
    requires j < |a + [x] + b + [z]| && j != |a| && Joins(overlaps, base, a + [x] + b + [z], j)
    ensures
      var place := if j == |a + [x] + b| then |a| else j;
      Joins(overlaps, base, a + [z] + b, place)
  {
    var handlers, after := a + [x] + b + [z], a + [z] + b;
    if j < |a| {
      assert handlers[..j + 1] == after[..j + 1];
      BeforeStays(overlaps, base, handlers, after, j);
    } else if j < |a + [x] + b| {
      var k := j - |a| - 1;
      JoinsAfter(overlaps, base, a + [x], b, [z], k);
      MovedSafe(overlaps, base, a, x, b, z, k);
      JoinsAfter(overlaps, base, a + [z], b, [], k);
      assert after + [] == after;
    } else {
      LastJoins(overlaps, base, a + [x] + b, z);
      assert after[..|a|] == a && after[|a|] == z;
      MiddleRoom(overlaps, base, a, x, b, z.routes);
    }
  }

  lemma LastJoins(overlaps: Overlap, base: Routes, a: seq<Handler>, z: Handler)
    ensures Joins(overlaps, base, a + [z], |a|) <==> !Clash(overlaps, Merged(overlaps, base, a), z.routes)
  {
    assert (a + [z])[..|a|] == a;
  }

  lemma {:induction false} MiddleRoom(overlaps: Overlap, base: Routes, a: seq<Handler>, x: Handler, b: seq<Handler>, z: Routes)
    requires !Clash(overlaps, Merged(overlaps, base, a + [x] + b), z)
    ensures !Clash(overlaps, Merged(overlaps, base, a), z)
  {
    assert (a + [x] + b)[..|a|] == a;
    MergedGrows(overlaps, base, a + [x] + b, |a|);
    ClashGrows(overlaps, Merged(overlaps, base, a), Merged(overlaps, base, a + [x] + b), z);
  }

  lemma {:induction false} OverlappedIsOut(overlaps: Overlap, base: Routes, handlers: seq<Handler>, i: nat, j: nat)
    requires Symmetric(overlaps) && i < j < |handlers| && Joins(overlaps, base, handlers, i)
    requires Clash(overlaps, handlers[j].routes, handlers[i].routes)
    ensures !Joins(overlaps, base, handlers, j)
  {
    ClashSymmetric(overlaps, handlers[j].routes, handlers[i].routes);
    if Joins(overlaps, base, handlers, j) {
      JoinedApart(overlaps, base, handlers, i, j);
    }
  }

  lemma MiddlePlaces(a: seq<Handler>, z: Handler, b: seq<Handler>, k: nat)
    requires k < |b|
    ensures (a + [z] + b)[..|a|] == a && (a + [z] + b)[|a|] == z && (a + [z] + b)[|a| + 1 + k] == b[k]
  {}

  lemma {:induction false} MiddleOut(overlaps: Overlap, base: Routes, a: seq<Handler>, z: Handler, b: seq<Handler>, k: nat)
    requires Symmetric(overlaps) && k < |b| && !Clash(overlaps, Merged(overlaps, base, a), z.routes)
    requires Clash(overlaps, b[k].routes, z.routes)
    ensures !Joins(overlaps, base, a + [z] + b, |a| + 1 + k)
  {
    MiddlePlaces(a, z, b, k);
    OverlappedIsOut(overlaps, base, a + [z] + b, |a|, |a| + 1 + k);
  }

  lemma {:induction false} MiddleUnsafe(overlaps: Overlap, base: Routes, a: seq<Handler>, x: Handler, b: seq<Handler>, z: Handler) returns (j: nat)
    requires Symmetric(overlaps) && forall h :: h in b + [z] ==> !Clash(overlaps, x.routes, h.routes)
    requires Clash(overlaps, Merged(overlaps, base, a + [x] + b), z.routes) && !Clash(overlaps, Merged(overlaps, base, a), z.routes)
    ensures |a| < j < |a + [x] + b|
    ensures Joins(overlaps, base, a + [x] + b + [z], j) && !Joins(overlaps, base, a + [z] + b, j)
  {
    var k := MovedUnsafe(overlaps, base, a, x, b, z);
    j := |a| + 1 + k;
    JoinsAfter(overlaps, base, a + [x], b, [z], k);
    MiddleOut(overlaps, base, a, z, b, k);
  }

  lemma {:induction false} LastWithdrawn(overlaps: Overlap, base: Routes, handlers: seq<Handler>)
    requires Distinct(handlers) && handlers != []
    ensures OthersStayServed(overlaps, base, handlers, |handlers| - 1)
  {
    var n := |handlers| - 1;
    Removed(handlers, n);
    forall j | 0 <= j < n && Joins(overlaps, base, handlers, j) ensures handlers[j].id in Accepted(overlaps, base, handlers[..n]) {
      assert handlers[..j + 1] == handlers[..n][..j + 1];
      BeforeStays(overlaps, base, handlers, handlers[..n], j);
      AcceptedAt(overlaps, base, handlers[..n], j);
    }
  }

  lemma NoneAfterOverlaps(overlaps: Overlap, handlers: seq<Handler>, i: nat, after: seq<Handler>)
    requires i < |handlers| && after == handlers[i + 1..]
    requires forall j :: 0 <= j < |handlers| && j != i ==> !Clash(overlaps, handlers[i].routes, handlers[j].routes)
    ensures forall h :: h in after ==> !Clash(overlaps, handlers[i].routes, h.routes)
  {
    forall h | h in after ensures !Clash(overlaps, handlers[i].routes, h.routes) {
      var j :| 0 <= j < |after| && after[j] == h;
      assert handlers[i + 1 + j] == h;
    }
  }

  lemma {:induction false} MiddleStays(overlaps: Overlap, base: Routes, handlers: seq<Handler>, a: seq<Handler>, x: Handler, b: seq<Handler>, z: Handler)
    requires Symmetric(overlaps) && forall h :: h in b + [z] ==> !Clash(overlaps, x.routes, h.routes)
    requires handlers == a + [x] + b + [z] && SwapRemove(handlers, x.id) == a + [z] + b && Distinct(a + [z] + b)
    requires !Clash(overlaps, Merged(overlaps, base, a + [x] + b), z.routes) || Clash(overlaps, Merged(overlaps, base, a), z.routes)
    ensures OthersStayServed(overlaps, base, handlers, |a|)
  {
    forall j | 0 <= j < |handlers| && j != |a| && Joins(overlaps, base, handlers, j)
      ensures handlers[j].id in Accepted(overlaps, base, a + [z] + b)
    {
      MiddleSafe(overlaps, base, a, x, b, z, j);
      AcceptedAt(overlaps, base, a + [z] + b, if j == |a + [x] + b| then |a| else j);
    }
  }

  lemma {:induction false} MiddleLost(overlaps: Overlap, base: Routes, handlers: seq<Handler>, a: seq<Handler>, x: Handler, b: seq<Handler>, z: Handler)
    requires Symmetric(overlaps) && forall h :: h in b + [z] ==> !Clash(overlaps, x.routes, h.routes)
    requires handlers == a + [x] + b + [z] && SwapRemove(handlers, x.id) == a + [z] + b && Distinct(a + [z] + b)
    requires Clash(overlaps, Merged(overlaps, base, a + [x] + b), z.routes) && !Clash(overlaps, Merged(overlaps, base, a), z.routes)
    ensures !OthersStayServed(overlaps, base, handlers, |a|)
  {
    var j := MiddleUnsafe(overlaps, base, a, x, b, z);
    AcceptedAt(overlaps, base, a + [z] + b, j);
    assert handlers[j].id !in Accepted(overlaps, base, a + [z] + b);
  }

  /** Withdrawing a handler that overlaps no other leaves every other one in service if and only if it is safe. */
  lemma {:induction false} WithdrawalSafeIff(overlaps: Overlap, base: Routes, handlers: seq<Handler>, i: nat)
    requires Symmetric(overlaps) && Distinct(handlers) && i < |handlers|
    requires forall j :: 0 <= j < |handlers| && j != i ==> !Clash(overlaps, handlers[i].routes, handlers[j].routes)
    ensures OthersStayServed(overlaps, base, handlers, i) <==> SafeToWithdraw(overlaps, base, handlers, i)
  {
    var n := |handlers| - 1;
    if i == n {
      LastWithdrawn(overlaps, base, handlers);
    } else {
      var a, x, b, z := handlers[..i], handlers[i], handlers[i + 1..n], handlers[n];
      assert handlers == a + [x] + b + [z] && b + [z] == handlers[i + 1..];
      Removed(handlers, i);
      LastJoins(overlaps, base, a + [x] + b, z);
      NoneAfterOverlaps(overlaps, handlers, i, b + [z]);
      if SafeToWithdraw(overlaps, base, handlers, i) {
        MiddleStays(overlaps, base, handlers, a, x, b, z);
      } else {
        MiddleLost(overlaps, base, handlers, a, x, b, z);
      }
    }
  }

  /** Withdrawing one handler can put another out of service: the last entry moves ahead of those it lost to. */
  lemma WithdrawalReorders(overlaps: Overlap, r: Route, s: Route)
    requires overlaps(r, r) && r != s && !overlaps(s, r) && !overlaps(r, s)
    ensures
      var handlers := [Handler("a", {s}), Handler("b", {r}), Handler("c", {r})];
      && Joins(overlaps, {}, handlers, 1) && !Joins(overlaps, {}, handlers, 2)
      && SwapRemove(handlers, "a") == [Handler("c", {r}), Handler("b", {r})]
      && !Joins(overlaps, {}, SwapRemove(handlers, "a"), 1)
  {}
}
