/** The update loop: each update is folded onto a tentative Agent layer, and committed only if the merged
    sources make a configuration the process can run on. */
module UpdateLoop {
  import opened Wrappers
  import opened Json
  import opened SourceTrees
  import opened ConfigStream

  datatype Error = Undeserialized | Untranslated | MissingApiKey | StreamClosed | SnapshotTimeOut | UpdateStreamClosed

  /** The source models, the translation and the validation, none of which look at anything else. */
  datatype Pipeline<!S, !C> = Pipeline(
    deserialize: Value -> Option<S>,
    translate: (S, Node) -> Option<C>,
    usable: C -> bool)

  /** How far merged sources got. */
  datatype Stages<+C> = Undeserializable | Untranslatable | Translated(config: C, valid: bool) {
    function IntoAuthoritative(): Result<C, Error> {
      match this
      case Undeserializable => Err(Undeserialized)
      case Untranslatable => Err(Untranslated)
      case Translated(config, valid) => if valid then Ok(config) else Err(MissingApiKey)
    }
  }

  function RunStages<S, C>(pipe: Pipeline<S, C>, merged: Node): Stages<C> {
    match pipe.deserialize(ToValue(merged))
    case None => Undeserializable
    case Some(sources) =>
      match pipe.translate(sources, merged)
      case None => Untranslatable
      case Some(config) => Translated(config, pipe.usable(config))
  }

  function Authoritative<S, C>(pipe: Pipeline<S, C>, merged: Node): Result<C, Error> {
    RunStages(pipe, merged).IntoAuthoritative()
  }

  /** What the loop holds: the local layer, the Agent layer as it was last committed, and the sources and
      configuration that came of the two. */
  datatype Held<+C> = Held(base: Node, agent: Node, sources: Node, config: C)

  ghost predicate Consistent<S, C>(pipe: Pipeline<S, C>, held: Held<C>) {
    && held.sources == Merge(held.base, held.agent)
    && Authoritative(pipe, held.sources) == Ok(held.config)
  }

  /** What an update would make of the Agent layer and of everything that follows from it. */
  function Evaluate<S, C>(pipe: Pipeline<S, C>, base: Node, agent: Node, update: ConfigUpdate): Result<Held<C>, Error> {
    var tentative := Fold(agent, update);
    var merged := Merge(base, tentative);
    match Authoritative(pipe, merged)
    case Ok(config) => Ok(Held(base, tentative, merged, config))
    case Err(error) => Err(error)
  }

  function Step<S, C>(pipe: Pipeline<S, C>, held: Held<C>, update: ConfigUpdate): Held<C> {
    match Evaluate(pipe, held.base, held.agent, update)
    case Ok(next) => next
    case Err(_) => held
  }

  function Run<S, C>(pipe: Pipeline<S, C>, held: Held<C>, updates: seq<ConfigUpdate>): Held<C> {
    if updates == [] then held
    else
      var n := |updates| - 1;
      Step(pipe, Run(pipe, held, updates[..n]), updates[n])
  }

  predicate Accepts<S, C>(pipe: Pipeline<S, C>, held: Held<C>, update: ConfigUpdate) {
    Evaluate(pipe, held.base, held.agent, update).Ok?
  }

  /** The updates of a run that were committed. */
  function Accepted<S, C>(pipe: Pipeline<S, C>, held: Held<C>, updates: seq<ConfigUpdate>): seq<ConfigUpdate> {
    if updates == [] then []
    else
      var n := |updates| - 1;
      Accepted(pipe, held, updates[..n]) +
      if Accepts(pipe, Run(pipe, held, updates[..n]), updates[n]) then [updates[n]] else []
  }

  // ---------- what is accepted, and why not ----------

  /** Three stages in a row make `config` of merged sources, and the process can run on it. */
  ghost predicate Makes<S, C>(pipe: Pipeline<S, C>, merged: Node, config: C) {
    var source := pipe.deserialize(ToValue(merged));
    source.Some? && pipe.translate(source.value, merged) == Some(config) && pipe.usable(config)
  }

  /** An update is accepted exactly if the sources it leads to get through every stage, it is then adopted whole,
      and otherwise the error is that of the stage that failed. */
  lemma AcceptsIff<S, C>(pipe: Pipeline<S, C>, held: Held<C>, update: ConfigUpdate, merged: Node)
    requires merged == Merge(held.base, Fold(held.agent, update))
    ensures forall config :: Makes(pipe, merged, config) ==>
              Accepts(pipe, held, update) && Step(pipe, held, update) == Held(held.base, Fold(held.agent, update), merged, config)
    ensures Accepts(pipe, held, update) ==> Makes(pipe, merged, Step(pipe, held, update).config)
    ensures !Accepts(pipe, held, update) ==> Step(pipe, held, update) == held
    ensures
      var source, outcome := pipe.deserialize(ToValue(merged)), Evaluate(pipe, held.base, held.agent, update);
      && (outcome == Err(Undeserialized) <==> source.None?)
      && (outcome == Err(Untranslated) <==> source.Some? && pipe.translate(source.value, merged).None?)
      && (outcome == Err(MissingApiKey) <==>
            source.Some? && pipe.translate(source.value, merged).Some? && !pipe.usable(pipe.translate(source.value, merged).value))
  {}

  /** After every run the process can run on the configuration, which is what deserializing and translating the
      retained sources gives. */
  lemma {:induction false} RunUsable<S, C>(pipe: Pipeline<S, C>, held: Held<C>, updates: seq<ConfigUpdate>)
    requires Makes(pipe, held.sources, held.config)
    ensures Makes(pipe, Run(pipe, held, updates).sources, Run(pipe, held, updates).config)
  {
    if updates != [] {
      var n := |updates| - 1;
      RunUsable(pipe, held, updates[..n]);
      var before := Run(pipe, held, updates[..n]);
      AcceptsIff(pipe, before, updates[n], Merge(before.base, Fold(before.agent, updates[n])));
    }
  }

  // ---------- the loop as it runs ----------

  /** What is kept between runs, with the updates still queued on the stream. */
  class UpdateState<!S, !C> {
    const pipe: Pipeline<S, C>
    const base: Node
    var queue: seq<ConfigUpdate>
    var agent: Node
    var sources: Node
    var published: C

    ghost function State(): Held<C>
      reads this
    {
      Held(base, agent, sources, published)
    }

    constructor (pipe: Pipeline<S, C>, queue: seq<ConfigUpdate>, first: Held<C>)
      ensures this.pipe == pipe && this.queue == queue && State() == first
    {
      this.pipe, this.queue := pipe, queue;
      base, agent, sources, published := first.base, first.agent, first.sources, first.config;
    }

    /** Works through the queue, adopting what can be adopted, until the stream has nothing more to give. */
    method ApplyUpdates() returns (error: Error)
      modifies this
      ensures State() == Run(pipe, old(State()), old(queue))
      ensures queue == [] && error == UpdateStreamClosed
      ensures old(Makes(pipe, sources, published)) ==> Makes(pipe, sources, published)
    {
      ghost var done := 0;
      ghost var all, start := queue, State();
      assert all[0..] == all && all[..0] == [];
      while queue != []
        invariant 0 <= done <= |all| && queue == all[done..]
        invariant State() == Run(pipe, start, all[..done])
        decreases |queue|
      {
        var update := queue[0];
        queue := queue[1..];
        assert all[..done + 1][..done] == all[..done];
        done := done + 1;
        match Evaluate(pipe, base, agent, update) {
          case Ok(next) =>
            agent, sources, published := next.agent, next.sources, next.config;
          case Err(_) =>
        }
      }
      assert all[..done] == all;
      if Makes(pipe, start.sources, start.config) {
        RunUsable(pipe, start, all);
      }
      error := UpdateStreamClosed;
    }
  }

  /** Startup: the first update must arrive in time and be accepted on top of an empty Agent layer. */
  method Connect<S, C>(pipe: Pipeline<S, C>, inTime: bool, stream: seq<ConfigUpdate>, base: Node)
    returns (r: Result<UpdateState<S, C>, Error>)
    ensures !inTime ==> r == Err(SnapshotTimeOut)
    ensures inTime && stream == [] ==> r == Err(StreamClosed)
    ensures inTime && stream != [] && !Evaluate(pipe, base, EMPTY, stream[0]).Ok? ==>
              r == Err(Evaluate(pipe, base, EMPTY, stream[0]).error)
    ensures inTime && stream != [] && Evaluate(pipe, base, EMPTY, stream[0]).Ok? ==>
              r.Ok? && r.value.pipe == pipe && r.value.queue == stream[1..] &&
              r.value.State() == Evaluate(pipe, base, EMPTY, stream[0]).value
    ensures r.Ok? ==> fresh(r.value) && Consistent(pipe, r.value.State())
    ensures r.Ok? ==> Makes(pipe, r.value.sources, r.value.published)
  {
    if !inTime {
      return Err(SnapshotTimeOut);
    }
    if stream == [] {
      return Err(StreamClosed);
    }
    match Evaluate(pipe, base, EMPTY, stream[0]) {
      case Ok(first) =>
        var state := new UpdateState(pipe, stream[1..], first);
        r := Ok(state);
      case Err(error) =>
        r := Err(error);
    }
  }

  // ---------- whole runs ----------

  /** After every run the sources are the base overlaid with the Agent layer, the configuration is their
      validated translation, and the base is untouched. */
  lemma {:induction false} RunConsistent<S, C>(pipe: Pipeline<S, C>, held: Held<C>, updates: seq<ConfigUpdate>)
    requires Consistent(pipe, held)
    ensures Consistent(pipe, Run(pipe, held, updates)) && Run(pipe, held, updates).base == held.base
  {
    if updates != [] {
      RunConsistent(pipe, held, updates[..|updates| - 1]);
    }
  }

  /** Splitting a stream over several runs makes no difference. */
  lemma {:induction false} RunSplit<S, C>(pipe: Pipeline<S, C>, held: Held<C>, a: seq<ConfigUpdate>, b: seq<ConfigUpdate>)
    ensures Run(pipe, held, a + b) == Run(pipe, Run(pipe, held, a), b)
    decreases |b|
  {
    if b == [] {
      assert a + b == a;
    } else {
      var n := |b| - 1;
      assert (a + b)[..|a + b| - 1] == a + b[..n];
      RunSplit(pipe, held, a, b[..n]);
    }
  }

  /** A run is the run of its accepted updates alone, and its Agent layer is those updates folded in turn:
      a rejected update leaves no trace. */
  lemma {:induction false} RejectedLeaveNoTrace<S, C>(pipe: Pipeline<S, C>, held: Held<C>, updates: seq<ConfigUpdate>)
    ensures Run(pipe, held, Accepted(pipe, held, updates)) == Run(pipe, held, updates)
    ensures Run(pipe, held, updates).agent == FoldAll(held.agent, Accepted(pipe, held, updates))
    ensures Run(pipe, held, updates).base == held.base
  {
    if updates != [] {
      var n := |updates| - 1;
      RejectedLeaveNoTrace(pipe, held, updates[..n]);
      var init := Accepted(pipe, held, updates[..n]);
      assert (init + [updates[n]])[..|init|] == init;
      assert init + [] == init;
    }
  }

  /** An accepted snapshot erases all earlier Agent history, whether it is accepted does not depend on that
      history either. */
  lemma SnapshotErasesHistory<S, C>(pipe: Pipeline<S, C>, one: Held<C>, other: Held<C>, settings: seq<ConfigSetting>)
    requires one.base == other.base
    ensures Accepts(pipe, one, Snapshot(settings)) <==> Accepts(pipe, other, Snapshot(settings))
    ensures Accepts(pipe, one, Snapshot(settings)) ==>
              Step(pipe, one, Snapshot(settings)) == Step(pipe, other, Snapshot(settings))
  {}

  lemma {:induction false} RunKeepsBase<S, C>(pipe: Pipeline<S, C>, held: Held<C>, updates: seq<ConfigUpdate>)
    ensures Run(pipe, held, updates).base == held.base
  {
    if updates != [] {
      RunKeepsBase(pipe, held, updates[..|updates| - 1]);
    }
  }

  /** Two runs of any past over the same base that go through the same accepted snapshot end in the same
      state, whatever follows it. */
  lemma SnapshotForgets<S, C>(pipe: Pipeline<S, C>, one: Held<C>, other: Held<C>, past1: seq<ConfigUpdate>,
                              past2: seq<ConfigUpdate>, settings: seq<ConfigSetting>, later: seq<ConfigUpdate>)
    requires one.base == other.base
    requires Accepts(pipe, Run(pipe, one, past1), Snapshot(settings))
    ensures Run(pipe, one, past1 + [Snapshot(settings)] + later) == Run(pipe, other, past2 + [Snapshot(settings)] + later)
  {
    RunKeepsBase(pipe, one, past1);
    RunKeepsBase(pipe, other, past2);
    SnapshotErasesHistory(pipe, Run(pipe, one, past1), Run(pipe, other, past2), settings);
    RunSplit(pipe, one, past1 + [Snapshot(settings)], later);
    RunSplit(pipe, other, past2 + [Snapshot(settings)], later);
    assert (past1 + [Snapshot(settings)])[..|past1|] == past1;
    assert (past2 + [Snapshot(settings)])[..|past2|] == past2;
  }

  /** When a run ends in an accepted update that marks a key as a default, the local file decides that key
      again: the merged node is the local one wherever it set anything at or beneath the key, whatever the
      Agent had sent before. */
  lemma DemotionRestoresLocal<S, C>(pipe: Pipeline<S, C>, held: Held<C>, past: seq<ConfigUpdate>, setting: ConfigSetting)
    requires setting.provenance == Default
    requires Accepts(pipe, Run(pipe, held, past), Partial(setting))
    ensures
      var sources, local := Run(pipe, held, past + [Partial(setting)]).sources, Get(held.base, setting.Place());
      Get(sources, setting.Place()) ==
        if local.Some? && HasExplicit(local.value) then local else Some(Leaf(setting.value, Default))
  {
    RunKeepsBase(pipe, held, past);
    assert (past + [Partial(setting)])[..|past|] == past;
    DefaultYields(held.base, Run(pipe, held, past).agent, setting.Place(), setting.value);
  }

  /** When a run ends in an accepted update that marks a key as explicit, the Agent decides that key, whatever the
      local file says. */
  lemma PromotionWins<S, C>(pipe: Pipeline<S, C>, held: Held<C>, past: seq<ConfigUpdate>, setting: ConfigSetting, p: Path)
    requires setting.provenance == Explicit && p != [] && Dotless(p) && setting.key == Joined(p)
    requires Accepts(pipe, Run(pipe, held, past), Partial(setting))
    ensures Get(Run(pipe, held, past + [Partial(setting)]).sources, p) == Some(Leaf(setting.value, Explicit))
  {
    RunKeepsBase(pipe, held, past);
    assert (past + [Partial(setting)])[..|past|] == past;
    PlaceSpelled(setting, p);
    var before := Run(pipe, held, past).agent;
    SetViews(before, p, setting.AsLeaf(), p);
    OverlayLeaf(held.base, Set(before, p, setting.AsLeaf()), p);
  }

  /** When a run ends in an accepted snapshot, every explicit setting in it is what the sources hold, and every
      default in it is unless the local file sets something at or beneath its key. */
  lemma SnapshotDecides<S, C>(pipe: Pipeline<S, C>, held: Held<C>, past: seq<ConfigUpdate>,
                              settings: seq<ConfigSetting>, s: ConfigSetting, p: Path)
    requires PairwiseApart(settings) && s in settings && p != [] && Dotless(p) && s.key == Joined(p)
    requires Accepts(pipe, Run(pipe, held, past), Snapshot(settings))
    ensures
      var sources, local := Run(pipe, held, past + [Snapshot(settings)]).sources, Get(held.base, p);
      Get(sources, p) ==
        if s.provenance == Default && local.Some? && HasExplicit(local.value) then local else Some(Leaf(s.value, s.provenance))
  {
    RunKeepsBase(pipe, held, past);
    assert (past + [Snapshot(settings)])[..|past|] == past;
    SnapshotHolds(settings, s, p);
    OverlayLeaf(held.base, FromSettings(settings), p);
  }

  lemma {:induction false} FoldOn(agent: Node, earlier: seq<ConfigUpdate>, later: seq<ConfigUpdate>)
    ensures FoldAll(FoldAll(agent, earlier), later) == FoldAll(agent, earlier + later)
    decreases |later|
  {
    if later == [] {
      assert earlier + later == earlier;
    } else {
      var n := |later| - 1;
      assert (earlier + later)[..|earlier| + n] == earlier + later[..n];
      FoldOn(agent, earlier, later[..n]);
    }
  }

  /** The whole history in one rule, where no key is a proper prefix of another: at every key the sources hold the last
      accepted word on it, unless that is a default and the local file sets something there; a key the Agent last
      said nothing about is the local file's. */
  lemma {:induction false} SourcesDecided<S, C>(pipe: Pipeline<S, C>, held: Held<C>, earlier: seq<ConfigUpdate>,
                                                updates: seq<ConfigUpdate>, places: set<Path>, p: Path)
    requires Consistent(pipe, held) && held.agent == FoldAll(EMPTY, earlier)
    requires PrefixFree(places) && p in places && p != [] && Dotless(p)
    requires forall i :: 0 <= i < |earlier + Accepted(pipe, held, updates)| ==> Keyed((earlier + Accepted(pipe, held, updates))[i], places)
    ensures
      var said := Latest(earlier + Accepted(pipe, held, updates), Joined(p));
      var sources, local := Run(pipe, held, updates).sources, Get(held.base, p);
      Get(sources, p) ==
        if said.None? || (said.value.provenance == Default && local.Some? && HasExplicit(local.value)) then local
        else Some(Leaf(said.value.value, said.value.provenance))
  {
    var history := earlier + Accepted(pipe, held, updates);
    RejectedLeaveNoTrace(pipe, held, updates);
    RunConsistent(pipe, held, updates);
    FoldOn(EMPTY, earlier, Accepted(pipe, held, updates));
    var agent := FoldAll(EMPTY, history);
    LayerSaysLatest(history, places, p);
    ViewsAgree(history, places);
    if Latest(history, Joined(p)).None? {
      OverlayNothing(held.base, agent, p);
    } else {
      OverlayLeaf(held.base, agent, p);
    }
  }
}
