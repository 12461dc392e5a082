/** Commits and readers, interleaved in every possible way. The update loop takes an update and evaluates it; to
    commit, it takes the write lock on the sources, stores them, publishes the configuration, and releases the lock.
    A reader clones the sources under the read lock, and loads the configuration with no lock at all. */
module LiveReaders {
  import opened Wrappers
  import opened SourceTrees
  import opened ConfigStream
  import opened UpdateLoop

  /** What a run starts from, and the stream it is given. */
  datatype World<!S, !C> = World(pipe: Pipeline<S, C>, start: Held<C>, updates: seq<ConfigUpdate>)

  /** How far the loop is with the update it took last. */
  datatype Writer<+C> = Idle | Ready(next: Held<C>) | Locked(next: Held<C>) | Stored(next: Held<C>) | Published(next: Held<C>)

  /** The loop's place in the stream and its Agent layer, the readers that hold the lock, and the two registers
      that readers load. */
  datatype System<+C> = System(taken: nat, agent: Node, writer: Writer<C>, readers: set<nat>, sources: Node, config: C)

  datatype Action =
    | TakeUpdate | TakeWrite | StoreSources | Publish | ReleaseWrite
    | TakeRead(reader: nat) | CloneSources(reader: nat) | ReleaseRead(reader: nat)
    | LoadConfig(reader: nat)

  function Initial<S, C>(w: World<S, C>): System<C> {
    System(0, w.start.agent, Idle, {}, w.start.sources, w.start.config)
  }

  /** The lock excludes a writer from readers and readers from a writer. */
  predicate Enabled<S, C>(w: World<S, C>, s: System<C>, a: Action) {
    match a
    case TakeUpdate => s.writer.Idle? && s.taken < |w.updates|
    case TakeWrite => s.writer.Ready? && s.readers == {}
    case StoreSources => s.writer.Locked?
    case Publish => s.writer.Stored?
    case ReleaseWrite => s.writer.Published?
    case TakeRead(r) => (s.writer.Idle? || s.writer.Ready?) && r !in s.readers
    case CloneSources(r) => r in s.readers
    case ReleaseRead(r) => r in s.readers
    case LoadConfig(_) => true
  }

  function Act<S, C>(w: World<S, C>, s: System<C>, a: Action): System<C>
    requires Enabled(w, s, a)
  {
    match a
    case TakeUpdate => Taken(w, s)
    case TakeWrite => s.(writer := Locked(s.writer.next))
    case StoreSources => s.(writer := Stored(s.writer.next), sources := s.writer.next.sources)
    case Publish => s.(writer := Published(s.writer.next), config := s.writer.next.config)
    case ReleaseWrite => s.(writer := Idle)
    case TakeRead(r) => s.(readers := s.readers + {r})
    case ReleaseRead(r) => s.(readers := s.readers - {r})
    case _ => s
  }

  /** The next update evaluated on the loop's own layer: adopted if it is accepted, and dropped if not. */
  function Taken<S, C>(w: World<S, C>, s: System<C>): System<C>
    requires s.taken < |w.updates|
  {
    match Evaluate(w.pipe, w.start.base, s.agent, w.updates[s.taken])
    case Ok(next) => s.(taken := s.taken + 1, agent := next.agent, writer := Ready(next))
    case Err(_) => s.(taken := s.taken + 1)
  }

  /** Where an interleaving leads, if every action of it is enabled when it is taken. */
  function After<S, C>(w: World<S, C>, actions: seq<Action>): Option<System<C>> {
    if actions == [] then Some(Initial(w))
    else
      var n := |actions| - 1;
      var before := After(w, actions[..n]);
      if before.Some? && Enabled(w, before.value, actions[n]) then Some(Act(w, before.value, actions[n])) else None
  }

  function Publishes(actions: seq<Action>): nat {
    if actions == [] then 0
    else
      var n := |actions| - 1;
      Publishes(actions[..n]) + if actions[n] == Publish then 1 else 0
  }

  // ---------- what a version holds ----------

  /** The states a run commits, from the one it starts in: version `k` is the `k`th. */
  function Commits<S, C>(pipe: Pipeline<S, C>, start: Held<C>, updates: seq<ConfigUpdate>): (commits: seq<Held<C>>)
    ensures commits != []
  {
    if updates == [] then [start]
    else
      var n := |updates| - 1;
      Commits(pipe, start, updates[..n]) +
      if Accepts(pipe, Run(pipe, start, updates[..n]), updates[n]) then [Run(pipe, start, updates)] else []
  }

  /** The commits are the start and one for each accepted update, and every version anyone can see pairs
      sources with their own translation. */
  lemma {:induction false} CommitsConsistent<S, C>(pipe: Pipeline<S, C>, start: Held<C>, updates: seq<ConfigUpdate>)
    requires Consistent(pipe, start)
    ensures
      var commits := Commits(pipe, start, updates);
      && |commits| == 1 + |Accepted(pipe, start, updates)|
      && commits[|commits| - 1] == Run(pipe, start, updates)
      && (forall k :: 0 <= k < |commits| ==> Consistent(pipe, commits[k]))
  {
    RunConsistent(pipe, start, updates);
    if updates != [] {
      CommitsConsistent(pipe, start, updates[..|updates| - 1]);
    }
  }

  lemma {:induction false} CommitsStep<S, C>(pipe: Pipeline<S, C>, start: Held<C>, updates: seq<ConfigUpdate>)
    requires updates != []
    ensures Commits(pipe, start, updates[..|updates| - 1]) <= Commits(pipe, start, updates)
  {}

  lemma PrefixOfPrefix<T>(a: seq<T>, b: seq<T>, c: seq<T>)
    requires a <= b && b <= c
    ensures a <= c
  {
    assert a == b[..|a|] == c[..|a|];
  }

  lemma {:induction false} CommitsGrow<S, C>(pipe: Pipeline<S, C>, start: Held<C>, updates: seq<ConfigUpdate>, n: nat)
    requires n <= |updates|
    ensures Commits(pipe, start, updates[..n]) <= Commits(pipe, start, updates)
    decreases |updates|
  {
    if n < |updates| {
      var init := updates[..|updates| - 1];
      assert init[..n] == updates[..n];
      CommitsGrow(pipe, start, init, n);
      CommitsStep(pipe, start, updates);
      PrefixOfPrefix(Commits(pipe, start, updates[..n]), Commits(pipe, start, init), Commits(pipe, start, updates));
    } else {
      assert updates[..n] == updates;
    }
  }

  // ---------- what every interleaving keeps ----------

  /** With `p` configurations published out of `commits`, the last of which is `held`, the registers hold version `p`.
      The sources are a version ahead only between the two halves of a commit, and nobody reads them then. */
  ghost predicate Registers<C>(s: System<C>, held: Held<C>, commits: seq<Held<C>>, p: nat) {
    && s.agent == held.agent
    && (s.readers != {} ==> s.writer.Idle? || s.writer.Ready?)
    && |commits| == p + (if s.writer.Idle? || s.writer.Published? then 1 else 2)
    && commits[|commits| - 1] == held && (s.writer.Idle? || s.writer.next == held)
    && s.config == commits[p].config
    && s.sources == commits[if s.writer.Stored? then p + 1 else p].sources
  }

  ghost predicate Safe<S, C>(w: World<S, C>, s: System<C>, p: nat) {
    && s.taken <= |w.updates|
    && var done := w.updates[..s.taken];
       Registers(s, Run(w.pipe, w.start, done), Commits(w.pipe, w.start, done), p)
  }

  lemma RegistersTaken<S, C>(w: World<S, C>, s: System<C>, held: Held<C>, commits: seq<Held<C>>, p: nat)
    requires Registers(s, held, commits, p) && Enabled(w, s, TakeUpdate) && held.base == w.start.base
    ensures
      var update := w.updates[s.taken];
      var next := Step(w.pipe, held, update);
      Registers(Taken(w, s), next, commits + (if Accepts(w.pipe, held, update) then [next] else []), p)
  {}

  /** One more update of a run, and what it commits. */
  lemma {:induction false} RunNext<S, C>(pipe: Pipeline<S, C>, start: Held<C>, updates: seq<ConfigUpdate>, n: nat)
    requires n < |updates|
    ensures
      var held := Run(pipe, start, updates[..n]);
      var next := Step(pipe, held, updates[n]);
      && Run(pipe, start, updates[..n + 1]) == next
      && Commits(pipe, start, updates[..n + 1]) ==
           Commits(pipe, start, updates[..n]) + (if Accepts(pipe, held, updates[n]) then [next] else [])
  {
    assert updates[..n + 1][..n] == updates[..n];
  }

  lemma {:induction false} TakenSafe<S, C>(w: World<S, C>, s: System<C>, p: nat)
    requires Safe(w, s, p) && Enabled(w, s, TakeUpdate)
    ensures Safe(w, Taken(w, s), p)
  {
    var done := w.updates[..s.taken];
    RunKeepsBase(w.pipe, w.start, done);
    RunNext(w.pipe, w.start, w.updates, s.taken);
    RegistersTaken(w, s, Run(w.pipe, w.start, done), Commits(w.pipe, w.start, done), p);
  }

  lemma RegistersKept<S, C>(w: World<S, C>, s: System<C>, a: Action, held: Held<C>, commits: seq<Held<C>>, p: nat)
    requires Registers(s, held, commits, p) && Enabled(w, s, a) && a != TakeUpdate
    ensures Registers(Act(w, s, a), held, commits, p + if a == Publish then 1 else 0)
  {}

  lemma ActSafe<S, C>(w: World<S, C>, s: System<C>, p: nat, a: Action)
    requires Safe(w, s, p) && Enabled(w, s, a)
    ensures Safe(w, Act(w, s, a), p + if a == Publish then 1 else 0)
  {
    if a == TakeUpdate {
      TakenSafe(w, s, p);
    } else {
      var done := w.updates[..s.taken];
      RegistersKept(w, s, a, Run(w.pipe, w.start, done), Commits(w.pipe, w.start, done), p);
    }
  }

  lemma {:induction false} LastAction<S, C>(w: World<S, C>, actions: seq<Action>, n: nat)
    requires After(w, actions).Some? && |actions| == n + 1
    ensures After(w, actions[..n]).Some? && Enabled(w, After(w, actions[..n]).value, actions[n])
    ensures After(w, actions).value == Act(w, After(w, actions[..n]).value, actions[n])
    ensures Publishes(actions) == Publishes(actions[..n]) + if actions[n] == Publish then 1 else 0
  {}

  lemma InitialSafe<S, C>(w: World<S, C>)
    ensures Safe(w, Initial(w), 0)
  {
    assert w.updates[..0] == [];
  }

  lemma {:induction false} AlwaysSafe<S, C>(w: World<S, C>, actions: seq<Action>)
    requires After(w, actions).Some?
    ensures Safe(w, After(w, actions).value, Publishes(actions))
  {
    if actions == [] {
      InitialSafe(w);
    } else {
      var n := |actions| - 1;
      LastAction(w, actions, n);
      AlwaysSafe(w, actions[..n]);
      ActSafe(w, After(w, actions[..n]).value, Publishes(actions[..n]), actions[n]);
    }
  }

  // ---------- what readers see ----------

  predicate IsLoad(a: Action) {
    a.CloneSources? || a.LoadConfig?
  }

  /** The version a load at `m` sees: how many configurations were published before it. */
  function Version(actions: seq<Action>, m: nat): nat
    requires m <= |actions|
  {
    Publishes(actions[..m])
  }

  lemma {:induction false} Prefix<S, C>(w: World<S, C>, actions: seq<Action>, m: nat)
    requires After(w, actions).Some? && m <= |actions|
    ensures After(w, actions[..m]).Some?
    ensures m < |actions| ==> Enabled(w, After(w, actions[..m]).value, actions[m])
    decreases |actions|
  {
    if m == |actions| {
      assert actions[..m] == actions;
    } else {
      var n := |actions| - 1;
      if m < n {
        assert actions[..n][..m] == actions[..m];
        Prefix(w, actions[..n], m);
      }
    }
  }

  /** Whatever a reader loads, of either kind and at any moment, is the part of a committed version: the one whose
      number is the count of configurations published before. */
  lemma SeenIsCommitted<S, C>(w: World<S, C>, actions: seq<Action>, m: nat)
    requires After(w, actions).Some? && m < |actions| && IsLoad(actions[m])
    ensures After(w, actions[..m]).Some? && Version(actions, m) < |Commits(w.pipe, w.start, w.updates)|
    ensures
      var s, version := After(w, actions[..m]).value, Commits(w.pipe, w.start, w.updates)[Version(actions, m)];
      && (actions[m].CloneSources? ==> s.sources == version.sources)
      && (actions[m].LoadConfig? ==> s.config == version.config)
  {
    Prefix(w, actions, m);
    AlwaysSafe(w, actions[..m]);
    CommitsGrow(w.pipe, w.start, w.updates, After(w, actions[..m]).value.taken);
  }

  /** A later load never sees an older version, and it sees the same one exactly if nothing was published in between. */
  lemma {:induction false} VersionsNeverGoBack(actions: seq<Action>, m: nat, k: nat)
    requires m <= k <= |actions|
    ensures Version(actions, m) <= Version(actions, k)
    ensures Version(actions, m) == Version(actions, k) <==> forall j :: m <= j < k ==> actions[j] != Publish
    decreases k
  {
    if m < k {
      assert actions[..k][..k - 1] == actions[..k - 1];
      VersionsNeverGoBack(actions, m, k - 1);
    }
  }

  /** A load of the sources and a load of the configuration, in either order, by any readers: with nothing published
      between them the configuration is the translation of the sources; else the later load is of a later commit. */
  lemma LoadsMatchIff<S, C>(w: World<S, C>, actions: seq<Action>, m: nat, k: nat)
    requires Consistent(w.pipe, w.start) && After(w, actions).Some?
    requires m < |actions| && k < |actions| && actions[m].CloneSources? && actions[k].LoadConfig?
    ensures After(w, actions[..m]).Some? && After(w, actions[..k]).Some?
    ensures
      var quiet := forall j :: m <= j < k || k <= j < m ==> actions[j] != Publish;
      && (Version(actions, m) == Version(actions, k) <==> quiet)
      && (quiet ==> Authoritative(w.pipe, After(w, actions[..m]).value.sources) == Ok(After(w, actions[..k]).value.config))
      && (!quiet ==> (Version(actions, m) < Version(actions, k) <==> m < k))
  {
    SeenIsCommitted(w, actions, m);
    SeenIsCommitted(w, actions, k);
    CommitsConsistent(w.pipe, w.start, w.updates);
    if m < k {
      VersionsNeverGoBack(actions, m, k);
    } else {
      VersionsNeverGoBack(actions, k, m);
    }
  }

  // ---------- two loads around a commit ----------

  lemma Extend<S, C>(w: World<S, C>, done: seq<Action>, a: Action)
    requires After(w, done).Some? && Enabled(w, After(w, done).value, a)
    ensures After(w, done + [a]) == Some(Act(w, After(w, done).value, a))
    ensures Publishes(done + [a]) == Publishes(done) + if a == Publish then 1 else 0
  {
    assert (done + [a])[..|done|] == done;
  }

  /** An accepted update, committed from end to end. */
  lemma CommitOnce<S, C>(w: World<S, C>, done: seq<Action>) returns (next: seq<Action>)
    requires After(w, done).Some?
    requires
      var s := After(w, done).value;
      && s.writer.Idle? && s.readers == {} && s.taken < |w.updates|
      && Evaluate(w.pipe, w.start.base, s.agent, w.updates[s.taken]).Ok?
    ensures After(w, next).Some? && After(w, next).value.writer.Idle? && After(w, next).value.readers == {}
    ensures done <= next && Publishes(next) == Publishes(done) + 1
    ensures After(w, next).value.taken == After(w, done).value.taken + 1
  {
    Extend(w, done, TakeUpdate);
    next := done + [TakeUpdate];
    Extend(w, next, TakeWrite);
    next := next + [TakeWrite];
    Extend(w, next, StoreSources);
    next := next + [StoreSources];
    Extend(w, next, Publish);
    next := next + [Publish];
    Extend(w, next, ReleaseWrite);
    next := next + [ReleaseWrite];
  }

  /** Both orders of loading can see two different versions, whenever there is an update to commit. */
  lemma LoadsCanDiffer<S, C>(w: World<S, C>) returns (one: seq<Action>, m: nat, two: seq<Action>, k: nat)
    requires w.updates != [] && Accepts(w.pipe, w.start, w.updates[0])
    ensures After(w, one).Some? && m < |one| - 1 && one[m].CloneSources? && one[|one| - 1].LoadConfig?
    ensures Version(one, m) < Version(one, |one| - 1)
    ensures After(w, two).Some? && k < |two| - 1 && two[k].LoadConfig? && two[|two| - 1].CloneSources?
    ensures Version(two, k) < Version(two, |two| - 1)
  {
    Extend(w, [], TakeRead(0));
    one := [] + [TakeRead(0)];
    Extend(w, one, CloneSources(0));
    one, m := one + [CloneSources(0)], 1;
    Extend(w, one, ReleaseRead(0));
    one := one + [ReleaseRead(0)];
    var committed := CommitOnce(w, one);
    Extend(w, committed, LoadConfig(0));
    Shorter(one, committed, committed + [LoadConfig(0)], m);
    one := committed + [LoadConfig(0)];

    Extend(w, [], LoadConfig(0));
    two, k := [] + [LoadConfig(0)], 0;
    committed := CommitOnce(w, two);
    Extend(w, committed, TakeRead(0));
    var reading := committed + [TakeRead(0)];
    Extend(w, reading, CloneSources(0));
    Shorter(two, reading, reading + [CloneSources(0)], k);
    two := reading + [CloneSources(0)];
  }

  lemma Shorter(some: seq<Action>, more: seq<Action>, all: seq<Action>, m: nat)
    requires some <= more && |all| == |more| + 1 && all[..|more|] == more && m < |some|
    ensures all[m] == some[m] && Version(all, m) == Version(some, m) && Version(all, |all| - 1) == Publishes(more)
  {
    assert all[..m] == some[..m];
  }

  // ---------- nothing keeps the loop from finishing ----------

  function StepsLeft<C>(writer: Writer<C>): nat {
    match writer
    case Idle => 0
    case Published(_) => 1
    case Stored(_) => 2
    case Locked(_) => 3
    case Ready(_) => 4
  }

  function NextStep<C>(writer: Writer<C>): Action
    requires !writer.Idle?
  {
    match writer
    case Published(_) => ReleaseWrite
    case Stored(_) => Publish
    case Locked(_) => StoreSources
    case Ready(_) => TakeWrite
  }

  /** Readers let go of the lock, and the commit under way is completed. */
  lemma {:induction false} ComesToRest<S, C>(w: World<S, C>, done: seq<Action>) returns (next: seq<Action>)
    requires After(w, done).Some?
    ensures done <= next && After(w, next).Some?
    ensures After(w, next).value.writer.Idle? && After(w, next).value.readers == {}
    ensures After(w, next).value.taken == After(w, done).value.taken
    decreases |After(w, done).value.readers|, StepsLeft(After(w, done).value.writer)
  {
    var s := After(w, done).value;
    if r :| r in s.readers {
      Extend(w, done, ReleaseRead(r));
      next := ComesToRest(w, done + [ReleaseRead(r)]);
    } else if !s.writer.Idle? {
      Extend(w, done, NextStep(s.writer));
      next := ComesToRest(w, done + [NextStep(s.writer)]);
    } else {
      next := done;
    }
  }

  lemma {:induction false} TakesRest<S, C>(w: World<S, C>, done: seq<Action>) returns (next: seq<Action>)
    requires After(w, done).Some? && After(w, done).value.writer.Idle? && After(w, done).value.readers == {}
    requires After(w, done).value.taken <= |w.updates|
    ensures done <= next && After(w, next).Some?
    ensures After(w, next).value.writer.Idle? && After(w, next).value.taken == |w.updates|
    decreases |w.updates| - After(w, done).value.taken
  {
    var s := After(w, done).value;
    if s.taken == |w.updates| {
      next := done;
    } else if Evaluate(w.pipe, w.start.base, s.agent, w.updates[s.taken]).Ok? {
      next := CommitOnce(w, done);
      next := TakesRest(w, next);
    } else {
      Extend(w, done, TakeUpdate);
      next := TakesRest(w, done + [TakeUpdate]);
    }
  }

  /** However commits and readers have been interleaved so far, the rest of the stream can be taken, and once it is, the
      registers hold what a run over the whole stream gives. */
  lemma {:induction false} CanFinish<S, C>(w: World<S, C>, done: seq<Action>) returns (next: seq<Action>)
    requires After(w, done).Some?
    ensures done <= next && After(w, next).Some?
    ensures
      var s, final := After(w, next).value, Run(w.pipe, w.start, w.updates);
      s.taken == |w.updates| && s.agent == final.agent && s.sources == final.sources && s.config == final.config
  {
    next := ComesToRest(w, done);
    AlwaysSafe(w, next);
    next := TakesRest(w, next);
    AlwaysSafe(w, next);
    assert w.updates[..|w.updates|] == w.updates;
  }
}
