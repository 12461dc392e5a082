# Saluki: a verified model

This project models the parts of Saluki that decide what a running data plane is configured with, and a few of its
small state machines, and proves what they keep. Everything is stated for all inputs, all runs or all interleavings.

**Key resolution** (`Resolution`, `Collisions`, `Documents`, `KeyResolution`, `Spellings`, `Stability`, `Placements`,
`LeafMaps`, `Reading`, `ReadingLaws`, `GoFloats`). A written document is read against the Datadog schema: every value is
gathered at the place it resolves to, and the gathered values are written into one tree under collision rules. The
collision rules have a closed form, a set of claims and a set of open sections, and the resolved tree is proved to show
exactly that at every path. From it follow that a value in its place always wins, that the last respelling wins
otherwise, that nothing is invented, that resolving is idempotent, and that the order of a map's entries matters only
where two respellings compete. Where a key goes is also said of its own text: lowercased and with a dot between
segments, it either is a setting's dotted key, or starts one, or neither. And what a parsed file comes to is said of the
file: which of its nodes are gathered, what each is worth, where it is found in the base value and in the local layer,
and exactly when the file cannot be read.

**Layers** (`SourceTrees`, `ConfigStream`, `LocalReading`). Trees of sections and leaves that carry provenance, set by
dotted key and overlaid on one another; the by-key view of the same stream; and the choice between the two readings of a
local file.

**The update loop** (`UpdateLoop`, `LiveReaders`). Each update is evaluated on a tentative copy and committed only if it
makes a usable configuration. Deserialization, translation and validation are abstract and deterministic. Where no key is a
proper prefix of another, a whole history comes down to one rule per key: the last accepted word on it. The commit and its
readers are interleaved in every way the lock allows.

**Durations** (`Decimals`, `GoDuration`, `DurationLaws`, `DurationText`, `DurationStrings`). The scanner of Go-style
durations with its 128-bit checked arithmetic, what exactly it accepts, its error bound, and its round trips; and the same
said of written durations, digits, points and unit names, with the reason each other string is refused for.

**Small state machines**. The procfs scanner, on every text, and against plain line splitting (`LineScanner`,
`ResidentSet`), the token bucket over real numbers (`TokenBuckets`), the dynamic API router (`Routing`), and Prometheus
rendering (`Prometheus`).

Code that changes things in place is modelled as methods: `Placements`, `UpdateState`, `Scanner`, `TokenBucket`,
`RouteLoop` and `Renderer` are classes whose methods are proved against a specification function, and the loops of
`write`, `set`, `upsert`, the leaf-map visitor, `drop_nulls` and the duration parser are loops here too.

## Where the code decides differently from what one might expect

- Overlaying a section on an explicit leaf replaces the leaf. `ExplicitBaseLeaf` says exactly when an explicit base
  value survives. Overlaying is not associative: `GroupingIff` gives the exact condition, and `GroupingMatters` an
  example.
- Setting a key below an object-valued leaf discards the object in a layer but keeps its entries in the by-key view.
  `SetAgreesWithUpsert` gives the exact condition under which the two agree.
- The scanner never returns when its buffer starts with the prefix and holds no newline, as on an unterminated last
  line: `ReturnsIff`. It can take the rest of a long line for a line: `LongLineMisread`. `ScanningIsSplittingIff` gives
  the exact condition under which scanning is plain line splitting.
- Withdrawing a handler moves the last one into its place, so an unrelated withdrawal can put a served handler out of
  service: `WithdrawalReorders`. `WithdrawalSafeIff` says exactly when it does not.
- Doubling underscores for periods does not always keep them apart from underscores that were there already:
  `PeriodsRestoredIff` says exactly when it does.
- Two loads around a commit can see different versions, in either order: `LoadsCanDiffer`. They match exactly when
  nothing was published between them: `LoadsMatchIff`.

## Model

| member | source | states |
|---|---|---|
| `Resolution.WriteShapes` | lib/agent-data-plane-config-system/src/datadog_yaml.rs:500-516 | what the tree shows at every path after a write: the value and its inside at and below the path, objects above it, the old tree elsewhere |
| `Resolution.WriteAt` | lib/agent-data-plane-config-system/src/datadog_yaml.rs:500-516 | the in-place walk that replaces whatever is not an object on its way computes that write |
| `Resolution.VacantShapes` | lib/agent-data-plane-config-system/src/datadog_yaml.rs:482-498 | a path is vacant exactly when nothing is at it and nothing but objects is above it |
| `Resolution.CheckVacant` | lib/agent-data-plane-config-system/src/datadog_yaml.rs:482-498 | the walking loop decides vacancy |
| `Resolution.HoldsWrite` | lib/agent-data-plane-config-system/src/datadog_yaml.rs:457-480 | writing a value that neither covers nor lies in another adds exactly one claim to what a tree holds |
| `Collisions.ResolvedHolds` | lib/agent-data-plane-config-system/src/datadog_yaml.rs:411-480 | the four writing passes leave exactly the closed form: winning claims, open sections and the nulls that stay |
| `Collisions.WinnerReadsBack` | lib/agent-data-plane-config-system/src/datadog_yaml.rs:457-480 | whatever wins a place is read back there whole |
| `Collisions.ShadowedIsAbsent` | lib/agent-data-plane-config-system/src/datadog_yaml.rs:457-480 | a respelling meant for below a value in place is not written at all |
| `Documents.TargetKind` | lib/agent-data-plane-config-system/src/datadog_yaml.rs:427-454 | the place a value resolves to has the kind of the path it was written at, and lies below sections only |
| `Documents.TargetStays` | lib/agent-data-plane-config-system/src/datadog_yaml.rs:427-454 | the place a value resolves to resolves to itself |
| `Documents.ValuesApart` | lib/agent-data-plane-config-system/src/datadog_yaml.rs:202-224 | no two values of a document are written at paths one of which lies in the other |
| `KeyResolution.ResolveHolds` | lib/agent-data-plane-config-system/src/datadog_yaml.rs:427-480 | the tree a whole document resolves to, path by path |
| `KeyResolution.InPlaceReadsBack` | lib/agent-data-plane-config-system/src/datadog_yaml.rs:411-516 | a non-null value written at its canonical place reads back unchanged, objects included, whatever else the document holds |
| `KeyResolution.RespellingSettled` | lib/agent-data-plane-config-system/src/datadog_yaml.rs:411-498 | every place a respelling is meant for, settled: the value in place, else nothing below a value in place, else the last respelling in document order |
| `KeyResolution.NothingInvented` | lib/agent-data-plane-config-system/src/datadog_yaml.rs:427-480 | every value in the resolved tree lies in a document entry, at the place that entry resolves to |
| `Json.SplitJoined` | lib/agent-data-plane-config-system/src/datadog_yaml.rs:95-99 | every path of dotless segments is what its dotted key splits into |
| `Json.JoinedSplit` | lib/agent-data-plane-config-system/src/datadog_yaml.rs:95-99 | every key is its segments with dots between them, and no segment has a dot in it |
| `Spellings.CanonIsName` | lib/agent-data-plane-config-system/src/datadog_yaml.rs:95-99 | the canonical path of a written path is its segments, lowercased and joined by dots, split again |
| `Spellings.GoesToLeafIff` | lib/agent-data-plane-config-system/src/datadog_yaml.rs:427-454 | a written path goes to a setting if and only if, lowercased and joined by dots, it is the setting's dotted key |
| `Spellings.GoesAboveLeafIff` | lib/agent-data-plane-config-system/src/datadog_yaml.rs:427-454 | a written path goes to a place above a setting if and only if it is written there |
| `Spellings.GoesNowhere` | lib/agent-data-plane-config-system/src/datadog_yaml.rs:440-447 | a value whose path spells a section stays where it is written |
| `Spellings.GoesWithSection` | lib/agent-data-plane-config-system/src/datadog_yaml.rs:440-447 | a key that spells neither a setting nor a section keeps its spelling, inside the lowercased path of its section |
| `Spellings.SpelledLands` | lib/agent-data-plane-config-system/src/datadog_yaml.rs:427-480 | a non-null value that spells a setting, in any case and with any dots, is the setting's value in the resolved tree, unless another one spells it or is written above it |
| `Spellings.LastSpellingLands` | lib/agent-data-plane-config-system/src/datadog_yaml.rs:457-480 | of several that spell it, the one written last in the document is, unless a value is written in place at the setting or above it |
| `Spellings.UnknownLands` | lib/agent-data-plane-config-system/src/datadog_yaml.rs:427-480 | a key that spells neither a setting nor a section is found as spelled at the lowercased path of its section, unless the same key is in a section of that name twice or a value is written above it |
| `Spellings.GatheredInOrder` | lib/agent-data-plane-config-system/src/datadog_yaml.rs:427-454 | values are gathered in the order they are written in, said by positions in the document |
| `Stability.AsWrittenWhenUnrespelled` | lib/agent-data-plane-config-system/src/datadog_yaml.rs:427-480 | a document with no respelled key resolves to exactly its tree as written, empty sections and nulls included |
| `Stability.ResolveTwice` | lib/agent-data-plane-config-system/src/datadog_yaml.rs:427-480 | any document that reads as the resolved tree resolves to that tree again |
| `Stability.RereadAsWritten` | lib/agent-data-plane-config-system/src/datadog_yaml.rs:101-138 | every tree can be read as a document, and reads as itself |
| `Stability.ResolveIdempotent` | lib/agent-data-plane-config-system/src/datadog_yaml.rs:427-480 | resolving a resolved tree gives it back |
| `Stability.OrderDoesNotMatter` | lib/agent-data-plane-config-system/src/datadog_yaml.rs:411-480 | unless two respellings of different values compete for a place that nothing in place decides, permuting the entries of any maps leaves the result unchanged |
| `Placements.Placements.Collect` | lib/agent-data-plane-config-system/src/datadog_yaml.rs:425-454 | pushing the entries of a section, at any depth, appends exactly the values in place, moved and null, and the sections in reverse nesting order |
| `Placements.Placements.Resolve` | lib/agent-data-plane-config-system/src/datadog_yaml.rs:456-480 | the writing loops over the gathered vectors compute the four passes |
| `Placements.ResolveDocument` | lib/agent-data-plane-config-system/src/datadog_yaml.rs:51-61 | collecting and resolving in place computes the resolution all theorems are about |
| `LeafMaps.ReadLeafMap` | lib/agent-data-plane-config-system/src/datadog_yaml.rs:254-278 | for each rendered key the last non-null value written as that text, else the last non-null value of a typed key, else null; a null key fails the read |
| `LeafMaps.UntouchedIsNull` | lib/agent-data-plane-config-system/src/datadog_yaml.rs:254-278 | a text no key renders to has no value of either kind |
| `Reading.ReadIsDocument` | lib/agent-data-plane-config-system/src/datadog_yaml.rs:110-224 | reading a parsed file against the schema makes exactly the maps at section paths sections |
| `Reading.NoDatadogPath` | lib/agent-data-plane-config-system/src/datadog_yaml.rs:41-46 | a document with no Datadog path is read exactly as written |
| `ReadingLaws.PlainAt` | lib/agent-data-plane-config-system/src/datadog_yaml.rs:141-150 | outside the schema a value is what is written, at every path |
| `ReadingLaws.PlainOnly` | lib/agent-data-plane-config-system/src/datadog_yaml.rs:141-150 | and nothing else is in it |
| `ReadingLaws.LeafReadsIff` | lib/agent-data-plane-config-system/src/datadog_yaml.rs:254-278 | a leaf can be read if and only if no map in it, at any depth, has a null key |
| `ReadingLaws.LeafElements` | lib/agent-data-plane-config-system/src/datadog_yaml.rs:246-252 | a list in a leaf keeps its length and its elements in order |
| `ReadingLaws.LeafKeeps` | lib/agent-data-plane-config-system/src/datadog_yaml.rs:254-278 | a map in a leaf keeps under each text what is written as that text, else what is rendered to it last |
| `ReadingLaws.LeafAsWritten` | lib/agent-data-plane-config-system/src/datadog_yaml.rs:228-278 | a leaf in which every key is text is read as it is written: scalars, lists and maps |
| `ReadingLaws.ReachedIsGathered` | lib/agent-data-plane-config-system/src/datadog_yaml.rs:110-224 | every value whose ancestors all spell sections is gathered at its written path, a leaf with its keys rendered and anything else as written |
| `ReadingLaws.GatheredIsReached` | lib/agent-data-plane-config-system/src/datadog_yaml.rs:110-224 | and nothing else is gathered |
| `ReadingLaws.UnreadableIff` | lib/agent-data-plane-config-system/src/datadog_yaml.rs:41-61 | a file cannot be read if and only if a setting in it has a null key, at any depth |
| `ReadingLaws.SettingReads` | lib/agent-data-plane-config-system/src/datadog_yaml.rs:51-61 | a setting written at its own path, in whatever sections, is what the base value holds there |
| `ReadingLaws.WrittenSettingReads` | lib/agent-data-plane-config-system/src/datadog_yaml.rs:51-61 | in particular a scalar there is itself, and a setting whose keys are all text is what is written |
| `ReadingLaws.SpelledReads` | lib/agent-data-plane-config-system/src/datadog_yaml.rs:51-61 | a setting spelled in any case and with any dots is what the base value holds at its path, unless the file also reaches another value that spells it or is written above it |
| `ReadingLaws.UnknownReads` | lib/agent-data-plane-config-system/src/datadog_yaml.rs:51-61 | a key that spells neither a setting nor a section, in a section at its own path, is what is written |
| `GoFloats.GoFloatDenotes` | lib/agent-data-plane-config-system/src/datadog_yaml.rs:368-409 | in every layout the text denotes sign times d.ddd times ten to the exponent |
| `GoFloats.BodyDenotes` | lib/agent-data-plane-config-system/src/datadog_yaml.rs:380-409 | the same without the sign: exponent form, leading zeros, zero padding and inner point |
| `GoFloats.GoFloatLayout` | lib/agent-data-plane-config-system/src/datadog_yaml.rs:386-409 | which layout it is: an exponent exactly below -4 and from 6 on, with a sign and at least two digits, after the digits with a point behind the first; otherwise a point exactly if some digit is worth less than one |
| `GoFloats.SpecialTexts` | lib/agent-data-plane-config-system/src/datadog_yaml.rs:373-379 | not-a-number and the infinities have texts of their own, which no number shares |
| `SourceTrees.ExplicitSomewhere` | lib/agent-data-plane-config-system/src/source.rs:224-230 | a node has something explicit exactly when an explicit leaf is at or beneath it |
| `SourceTrees.SetInPlace` | lib/agent-data-plane-config-system/src/source.rs:80-113 | the walk by dotted key that makes sections on its way computes the set |
| `SourceTrees.SetViews` | lib/agent-data-plane-config-system/src/source.rs:75-113 | after a set: the leaf at its key, sections above it, nothing below it, the old layer everywhere else |
| `SourceTrees.SetCommutes` | lib/agent-data-plane-config-system/src/source.rs:75-113 | sets of incomparable keys commute |
| `SourceTrees.SetAbsorbs` | lib/agent-data-plane-config-system/src/source.rs:75-113 | a set of a prefix absorbs an earlier deeper one |
| `SourceTrees.ExplicitBaseLeaf` | lib/agent-data-plane-config-system/src/source.rs:115-129 | the fate of an explicit base leaf under an overlay, all cases: gone, replaced, or kept |
| `SourceTrees.OverlayLeaf` | lib/agent-data-plane-config-system/src/source.rs:194-222 | an overlay leaf wins unless it is a default and the base has something explicit at or beneath it |
| `SourceTrees.OverlayNothing` | lib/agent-data-plane-config-system/src/source.rs:194-222 | where the overlay has nothing at a path or above it, the base stays |
| `SourceTrees.DefaultYields` | lib/agent-data-plane-config-system/src/source.rs:80-129 | a setting demoted to a default stops shadowing the local node |
| `SourceTrees.MergeIdempotent` | lib/agent-data-plane-config-system/src/source.rs:194-222 | overlaying a layer on itself changes nothing |
| `SourceTrees.MergeEmpty` | lib/agent-data-plane-config-system/src/source.rs:46-51 | the empty layer is a left identity, and a right identity exactly of sections |
| `SourceTrees.GroupingIff` | lib/agent-data-plane-config-system/src/source.rs:194-222 | overlaying three layers gives the same either way if and only if they group: key by key, a default at the end finds `a` untouched by `b`, and a value in the middle hides nothing of `a` that `c` does not cover |
| `SourceTrees.MergeAssociative` | lib/agent-data-plane-config-system/src/source.rs:194-222 | layers of pairwise agreeing shape group |
| `SourceTrees.GroupingMatters` | lib/agent-data-plane-config-system/src/source.rs:194-222 | three whole layers that disagree at one key, for which the two groupings keep different values |
| `SourceTrees.LocalLayer` | lib/agent-data-plane-config-system/src/source.rs:53-63 | the local layer holds exactly the values it was made from, and every leaf of it is explicit |
| `ConfigStream.BuildFromSettings` | lib/agent-data-plane-config-system/src/source.rs:65-73 | the loop over a snapshot's settings computes the fold of sets; with pairwise incomparable keys every setting is in the layer with its own value and provenance |
| `ConfigStream.SnapshotViews` | lib/agent-data-plane-config-system/src/source.rs:65-113 | what a snapshot's layer shows at every path, said without the order of its settings |
| `ConfigStream.SnapshotOrder` | lib/agent-data-plane-config-system/src/source.rs:65-113 | a snapshot with pairwise incomparable keys builds the same layer in any order |
| `ConfigStream.SnapshotHolds` | lib/agent-data-plane-config-system/src/source.rs:65-113 | every setting of such a snapshot is in its layer with its own value and provenance, at the path its dotted key spells |
| `ConfigStream.LayerSaysLatest` | lib/agent-data-plane-config-system/src/source.rs:65-113 | over a whole stream of prefix-free keys, repeated or not, the layer holds the last word on every key since the last snapshot, with its provenance, and nothing else |
| `ConfigStream.Upsert` | lib/saluki-config/src/lib.rs:533-572 | the in-place walk that makes objects on its way computes the upsert |
| `ConfigStream.SetAgreesWithUpsert` | lib/saluki-config/src/lib.rs:533-572 | setting a key and upserting it give the same value if and only if the set's walk loses nothing that lies off it |
| `ConfigStream.SnapshotAgrees` | lib/saluki-config/src/dynamic/event.rs:87-94 | a snapshot over prefix-free keys has the same value in the layer and in the by-key state |
| `ConfigStream.ViewsAgree` | lib/saluki-config/src/lib.rs:631-652 | over a whole stream of prefix-free keys both views hold the same values after every update |
| `LocalReading.DropNullsInPlace` | lib/agent-data-plane-config-system/src/loaded.rs:239-248 | retaining and recursing in place computes the pruned value |
| `LocalReading.DropNullsShapes` | lib/agent-data-plane-config-system/src/loaded.rs:239-248 | dropping nulls removes exactly the null entries; every other path shows what it showed |
| `LocalReading.DropNullsTwice` | lib/agent-data-plane-config-system/src/loaded.rs:239-248 | dropping nulls twice is dropping them once |
| `LocalReading.BaseShapes` | lib/agent-data-plane-config-system/src/loaded.rs:226-229 | an empty file is an empty object, and any other keeps its shape but for the nulls in it |
| `LocalReading.ConfigurationIff` | lib/agent-data-plane-config-system/src/loaded.rs:130-178 | there is a configuration if and only if one of the two readings translates, and it is the translation of the base kept |
| `LocalReading.FallbackIff` | lib/agent-data-plane-config-system/src/loaded.rs:130-178 | the fallback error is kept exactly when the as-written reading is used, which is exactly when only that reading translates; the read fails exactly when there is no base to keep |
| `LocalReading.WrittenReachesLayer` | lib/agent-data-plane-config-system/src/loaded.rs:214-237 | a setting written in place reaches the environment pruned of nulls and no more, and what the environment leaves there is an explicit leaf of the local layer |
| `LocalReading.SpelledReachesLayer` | lib/agent-data-plane-config-system/src/loaded.rs:214-237 | the same from the parsed file, for a setting spelled in any case and with any dots |
| `UpdateLoop.UpdateState.ApplyUpdates` | lib/agent-data-plane-config-system/src/system.rs:239-273 | the loop over the queued updates leaves the state the run function gives, ends when the stream closes, and always publishes what the sources deserialize and translate to and can be run on |
| `UpdateLoop.Connect` | lib/agent-data-plane-config-system/src/system.rs:105-143 | startup fails on a late or closed stream or a refused first update, and otherwise starts with that update committed, in a consistent state the process can run on |
| `UpdateLoop.RunConsistent` | lib/agent-data-plane-config-system/src/system.rs:230-273 | after every run the sources are the base overlaid with the Agent layer, the configuration is their validated translation, and the base is untouched |
| `UpdateLoop.AcceptsIff` | lib/agent-data-plane-config-system/src/system.rs:319-360 | an update is accepted, and as what, exactly if the merged sources deserialize, translate and can be run on; it is then adopted whole, and otherwise the state is kept and the error is that of the stage that failed |
| `UpdateLoop.RunUsable` | lib/agent-data-plane-config-system/src/system.rs:245-273 | after every run the process can run on the configuration, which is what deserializing and translating the retained sources gives |
| `UpdateLoop.RunSplit` | lib/agent-data-plane-config-system/src/system.rs:208-227 | splitting a stream over several runs makes no difference |
| `UpdateLoop.RejectedLeaveNoTrace` | lib/agent-data-plane-config-system/src/system.rs:245-273 | a run equals the run of its accepted updates alone |
| `UpdateLoop.SnapshotErasesHistory` | lib/agent-data-plane-config-system/src/system.rs:361-372 | whether a snapshot is accepted, and the state it leaves, do not depend on the Agent layer before it |
| `UpdateLoop.SnapshotForgets` | lib/agent-data-plane-config-system/src/system.rs:361-372 | two runs of any past that go through the same accepted snapshot end in the same state |
| `UpdateLoop.DemotionRestoresLocal` | lib/agent-data-plane-config-system/src/system.rs:361-372 | a run that ends in an accepted demotion to a default has the local node at that key wherever local set anything there |
| `UpdateLoop.PromotionWins` | lib/agent-data-plane-config-system/src/system.rs:361-372 | a run that ends in an accepted explicit setting has that value, explicit, at the path its key spells, whatever the local file says |
| `UpdateLoop.SnapshotDecides` | lib/agent-data-plane-config-system/src/system.rs:361-372 | a run that ends in an accepted snapshot has every explicit setting of it, and every default the local file sets nothing for |
| `UpdateLoop.SourcesDecided` | lib/agent-data-plane-config-system/src/system.rs:245-273 | over every run with prefix-free keys the sources hold at every key the last accepted word on it, unless that is a default and the local file sets something there; a key last said nothing about is the local file's |
| `LiveReaders.AlwaysSafe` | lib/agent-data-plane-config-system/src/system.rs:245-273 | in every interleaving the registers hold the version whose number is the count of publications; the sources are one ahead only between the halves of a commit, and nobody reads them then |
| `LiveReaders.SeenIsCommitted` | lib/agent-data-plane-config-system/src/system.rs:194-196 | whatever a reader loads, of either kind and at any moment, belongs to a version the run committed |
| `LiveReaders.VersionsNeverGoBack` | lib/agent-data-plane-config-system/src/system.rs:84-89 | a later load never sees an older version, and sees the same one if and only if nothing was published in between |
| `LiveReaders.LoadsCanDiffer` | lib/agent-data-plane-config-system/src/system.rs:194-196 | for every stream that starts with an acceptable update, interleavings in which the two loads see different versions, in both orders |
| `LiveReaders.CommitsConsistent` | lib/agent-data-plane-config-system/src/system.rs:245-273 | the versions are the start and one per accepted update, and each pairs sources with their translation |
| `LiveReaders.LoadsMatchIff` | lib/agent-data-plane-config-system/src/system.rs:84-89 | a load of the sources and one of the configuration are of one version if and only if nothing was published between them, and then the configuration is the translation of those sources |
| `LiveReaders.CanFinish` | lib/agent-data-plane-config-system/src/system.rs:245-273 | however commits and readers were interleaved so far, the rest of the stream can be taken, and then the registers hold what a run over the whole stream gives |
| `GoDuration.SumComponents` | lib/go-duration/src/lib.rs:95-156 | the scanning loop with its checked total computes the recursive scan |
| `GoDuration.NextComponent` | lib/go-duration/src/lib.rs:95-155 | the step of the parser loop: one component read off the front and its checked arithmetic |
| `GoDuration.ParseDuration` | lib/go-duration/src/lib.rs:74-166 | the parser's result and error for every string |
| `GoDuration.ComponentNanos` | lib/go-duration/src/lib.rs:129-153 | the checked arithmetic of one component, with its scale loop |
| `GoDuration.FractionNeverOverflows` | lib/go-duration/src/lib.rs:139-153 | the product of a fraction's kept digits and its unit always fits in 128 bits |
| `GoDuration.CheckedIsNanos` | lib/go-duration/src/lib.rs:129-153 | a component is accepted exactly when its nanoseconds fit in 128 bits, as that number |
| `GoDuration.AcceptedExactly` | lib/go-duration/src/lib.rs:74-166 | a string is accepted as t if and only if it is a bare zero, or components that add up to t, in range and not negative |
| `DurationLaws.ComponentAccuracy` | lib/go-duration/src/lib.rs:129-153 | a component falls short of what is written by less than 1.0000036 ns, and not at all without a fraction |
| `DurationLaws.ParseAccuracy` | lib/go-duration/src/lib.rs:74-166 | an accepted string of n components is below its exact sum by less than n times that; a minus sign is accepted only on zero |
| `DurationText.TextAccuracy` | lib/go-duration/src/lib.rs:74-166 | any sequence of numbers with unit names is worth its written length, by a table of the eight names, less at most 1.0000036 ns for each, exactly without fractions; it is accepted as that exactly if in range, signed or not, and too long or negative otherwise |
| `DurationText.AcceptedIsText` | lib/go-duration/src/lib.rs:74-166 | every accepted string is, after an optional sign, a bare zero or such a sequence |
| `DurationText.ReadPart` | lib/go-duration/src/lib.rs:96-127 | a number with a unit name is read as its digits before the point, its digits after it, and the length of the unit |
| `DurationText.FirstFault` | lib/go-duration/src/lib.rs:95-127 | a string is refused for the first thing in it that cannot be read or added up |
| `DurationText.NeedsDigits` | lib/go-duration/src/lib.rs:97-110 | a number needs a digit before or after its point |
| `DurationText.NeedsUnit` | lib/go-duration/src/lib.rs:112-117 | a number needs a unit |
| `DurationText.NeedsKnownUnit` | lib/go-duration/src/lib.rs:114-127 | the letters after a number must be one of the eight names |
| `DurationText.NeedsRoom` | lib/go-duration/src/lib.rs:129-153 | a number must fit in 128 bits before and after it is counted in nanoseconds, with the reason for either |
| `DurationLaws.ParseConcat` | lib/go-duration/src/lib.rs:74-166 | parsing two unsigned strings with units written together is adding their durations, if the sum stays in range |
| `DurationLaws.DisplayRoundTrip` | lib/saluki-config/src/duration_string.rs:98-102 | every duration in range parses back from its printed form |
| `DurationStrings.SettingRoundTrip` | lib/saluki-config/src/duration_string.rs:90-102 | the same through the setting's own reader |
| `DurationStrings.BlanksIgnored` | lib/go-duration/src/lib.rs:178-189 | blanks around any text, of all 25 kinds Unicode has, make no difference to what it is read as |
| `DurationStrings.BareInteger` | lib/go-duration/src/lib.rs:178-189 | a bare integer, signed or not, is that many nanoseconds up to the longest duration, too long up to 128 bits, negative below zero, and without a unit beyond |
| `DurationStrings.OtherwiseDuration` | lib/go-duration/src/lib.rs:178-189 | anything but an integer is read as a Go duration, or refused for the reason it is none |
| `LineScanner.SplitIsWhole` | lib/process-memory/src/linux.rs:227-269 | plain splitting loses nothing: the lines and the tail make up the text |
| `LineScanner.SplitBack` | lib/process-memory/src/linux.rs:227-269 | newline-free lines, written out, split back into themselves |
| `LineScanner.TurnPasses` | lib/process-memory/src/linux.rs:227-269 | unless it is stuck, one turn of the loop goes past one line or one bufferful, hands a line out exactly if it had one and the buffer started with the prefix, and leaves less to do |
| `LineScanner.TurnScans` | lib/process-memory/src/linux.rs:227-269 | a turn hands out what the scan of the text hands out next, for every text and every prefix |
| `LineScanner.FitsScannable` | lib/process-memory/src/linux.rs:227-269 | text whose lines all fit the buffer can be scanned if and only if it does not end in an unterminated line with the prefix |
| `LineScanner.ReturnsIff` | lib/process-memory/src/linux.rs:227-269 | on every text a call returns if and only if the scan of what is ahead has a line to hand out or comes to an end |
| `LineScanner.EndedIsScan` | lib/process-memory/src/linux.rs:227-269 | any number of turns that reach the end have handed out exactly the scan of the text |
| `LineScanner.SplitsIff` | lib/process-memory/src/linux.rs:227-269 | the scan of a text is its plain splitting if and only if no line longer than the buffer, no part of one the buffer comes to start at, and no unterminated line looks wanted |
| `LineScanner.ScanningIsSplittingIff` | lib/process-memory/src/linux.rs:227-269 | some number of turns hands out exactly the lines splitting keeps and reaches the end, under that condition and no other |
| `LineScanner.HeadScans` | lib/process-memory/src/linux.rs:227-269 | lines that fit the buffer are scanned as they split, whatever follows them |
| `LineScanner.LongLineMisread` | lib/process-memory/src/linux.rs:256-267 | a line longer than the buffer whose rest is handed out as a line of its own |
| `LineScanner.Scanner.Reset` | lib/process-memory/src/linux.rs:187-192 | a reset scanner has the whole new input ahead, whatever it read before |
| `LineScanner.Scanner.FillBuf` | lib/process-memory/src/linux.rs:201-225 | fills the spare capacity, and marks the end of input when nothing came |
| `LineScanner.Scanner.NextMatchingLine` | lib/process-memory/src/linux.rs:227-269 | wherever it returns at all, hands out the next line of the scan of what is ahead, or none at its end; fails without input |
| `ResidentSet.RunningIsTotal` | lib/process-memory/src/linux.rs:83-97 | the running total that wraps at every step is the exact total wrapped once |
| `ResidentSet.SumRssValues` | lib/process-memory/src/linux.rs:83-97 | the accumulating loop reports the total over the scan of what is ahead, or gives up at a line without a digit |
| `ResidentSet.FirstRssValue` | lib/process-memory/src/linux.rs:69-78 | the loop gives the first size the scan of what is ahead states, and looks no further than the line that decides it |
| `ResidentSet.SmapsResidentSet` | lib/process-memory/src/linux.rs:36-42 | a query reports the total over the scan of the file, which is the total over its plain lines if the file splits |
| `ResidentSet.RollupResidentSet` | lib/process-memory/src/linux.rs:30-35 | a query reports the first size in the scan of the file, which is the first its plain lines state if the file splits |
| `ResidentSet.RollupHead` | lib/process-memory/src/linux.rs:30-35 | once lines that fit the buffer decide the first size, what follows them makes no difference to the query or to splitting |
| `ResidentSet.TotalConcat` | lib/process-memory/src/linux.rs:83-97 | totals add up over any way of cutting the lines in two |
| `ResidentSet.KbLineStates` | lib/process-memory/src/linux.rs:151-166 | a line of n kB, with any number of blanks, states n times 1024 bytes modulo the size of a word, if n fits one |
| `ResidentSet.StatesNothing` | lib/process-memory/src/linux.rs:151-166 | a line states nothing if its first digit begins a word with anything but digits in it, or if no blank ends that word |
| `ResidentSet.OnlyDigits` | lib/process-memory/src/linux.rs:151-166 | nothing but digits, after at most one plus sign, is read as a number |
| `ResidentSet.KbTotal` | lib/process-memory/src/linux.rs:83-97 | the total of such lines is the sum of their sizes |
| `ResidentSet.KbFirst` | lib/process-memory/src/linux.rs:69-78 | the first of them is the first size |
| `ResidentSet.GivesUpIff` | lib/process-memory/src/linux.rs:83-97 | the sum is given up if and only if a line has no digit in it, which is exactly when there is no total |
| `ResidentSet.DecidesIff` | lib/process-memory/src/linux.rs:69-78 | the first size is decided if and only if some line states one or has no digit in it, and without such a line there is none |
| `TokenBuckets.TokenBucket.Allow` | lib/saluki-common/src/rate.rs:29-45 | the new state and the verdict of one call, and that the tokens stay in range |
| `TokenBuckets.PerSecondSteady` | lib/saluki-common/src/rate.rs:36-37 | elapsed time times a rate is a steady way of earning, which is what the laws below need |
| `TokenBuckets.RunSound` | lib/saluki-common/src/rate.rs:20-45 | over every run the tokens stay between none and the burst |
| `TokenBuckets.WindowBound` | lib/saluki-common/src/rate.rs:20-45 | from any state and with any clock, the grants of a run are at most the burst and what its time earns |
| `TokenBuckets.LimitHolds` | lib/saluki-common/src/rate.rs:20-45 | in any window of calls of a run, the grants are at most the burst plus what the time from its first call to its last earns |
| `TokenBuckets.PerSecondHolds` | lib/saluki-common/src/rate.rs:20-45 | the same for the bucket's own rate: at most the burst plus the rate times the time from the first call of the window to its last |
| `TokenBuckets.BurstGranted` | lib/saluki-common/src/rate.rs:20-45 | calls the tokens cover are all granted |
| `TokenBuckets.PacedGranted` | lib/saluki-common/src/rate.rs:29-45 | a caller that keeps to the rate is never denied |
| `TokenBuckets.DeniedCallsDoNotMatter` | lib/saluki-common/src/rate.rs:29-45 | deleting all denied calls from a run changes no grant |
| `Routing.RebuildRouter` | lib/saluki-app/src/api.rs:375-394 | the merging loop computes the greedy merge |
| `Routing.RouteLoop.RunEventLoop` | lib/saluki-app/src/api.rs:286-334 | over every stream from a freshly seeded router, the handlers are those the stream leaves and the router served is their merge into the base |
| `Routing.HandlersAreRegistered` | lib/saluki-app/src/api.rs:286-334 | in every run the handler map holds exactly the registered handlers, through replacement in place and swap removal |
| `Routing.RegisteredIff` | lib/saluki-app/src/api.rs:304-325 | an id is registered if and only if it was asserted for the endpoint and not retracted since, with the routes of its last assertion |
| `Routing.ServedRoutes` | lib/saluki-app/src/api.rs:377-394 | the served routes are those of the base and of the accepted handlers, and no others |
| `Routing.ServedApart` | lib/saluki-app/src/api.rs:344-373 | no two accepted handlers overlap, and none overlaps the base |
| `Routing.ServedMaximal` | lib/saluki-app/src/api.rs:377-394 | a registered handler is left out if and only if the base or another accepted handler overlaps it |
| `Routing.ServedByRun` | lib/saluki-app/src/api.rs:286-394 | after every stream from a fresh router: the served routes, which handlers are accepted, and that an undisputed one always is |
| `Routing.WithdrawalSafeIff` | lib/saluki-app/src/api.rs:316-327 | withdrawing a handler that overlaps no other leaves every other one in service if and only if it is the last, or the last one is served already, or what stands before its place keeps the last one out |
| `Routing.WithdrawalReorders` | lib/saluki-app/src/api.rs:316-320 | three handlers for which the withdrawal of the first puts the second out of service |
| `Prometheus.LabelsReadBack` | lib/prometheus-exposition/src/lib.rs:244-272 | a rendered label list reads back for all values and all keys without an equals sign |
| `Prometheus.LabelsInjective` | lib/prometheus-exposition/src/lib.rs:244-272 | two label lists with the same text are the same list |
| `Prometheus.SeriesReadsBack` | lib/prometheus-exposition/src/lib.rs:140-161 | a series line determines its name, its labels and its value |
| `Prometheus.NormalizedIsName` | lib/prometheus-exposition/src/lib.rs:283-298 | normalizing makes a valid name out of every name but the empty one |
| `Prometheus.NormalizedTwice` | lib/prometheus-exposition/src/lib.rs:283-298 | normalizing twice is normalizing once |
| `Prometheus.NormalizedCharacters` | lib/prometheus-exposition/src/lib.rs:283-298 | a period becomes two underscores, whatever else cannot stand where it stands becomes one, and everything else is kept |
| `Prometheus.PeriodsRestoredIff` | lib/prometheus-exposition/src/lib.rs:291-295 | a name can be had back from its normalized form, reading pairs of underscores as periods, if and only if only periods were converted and no underscore stands before an underscore or a period |
| `Prometheus.Renderer.NormalizeName` | lib/prometheus-exposition/src/lib.rs:283-298 | the character loop into the name buffer computes the normalized name |
| `Prometheus.Renderer.FormatLabels` | lib/prometheus-exposition/src/lib.rs:244-272 | the loops into the labels buffer compute the label list's text |
| `Prometheus.Renderer.WriteSeries` | lib/prometheus-exposition/src/lib.rs:140-161 | appends exactly one series line to the group |
| `Prometheus.Renderer.FinishGroup` | lib/prometheus-exposition/src/lib.rs:235-242 | the output is always the finished groups with one blank line between any two |

## Left out

- YAML and JSON parsing, the serde visitors and merge keys: a document is a tree of entries with distinct keys.
- The generated Datadog schema, translator and environment readers: the schema is any set of leaf paths with the properties the repository checks of its own (lib/agent-data-plane-config-system/src/datadog_yaml.rs:783-810), lowercasing is any function that fixes their segments, and the translation and the environment overlay are parameters.
- `flattened_keys` and the two `flatten_value` walks: listing what a tree already determines.
- Figment layering, change events and the `Live` views built on the published root.
- Shutdown, supervision, the length of the wait for the first snapshot, logging and the channels themselves: a stream is a sequence of updates, and a live value is a register.
- Read errors of a local file and of procfs, and a reader that returns less than it could: the scanner's reader fills the space it is offered until its input ends.
- `statm` parsing and the choice of stat source.
- axum's own matching and fallbacks: a router is a set of routes, and whether two overlap is any symmetric relation.
- Metric headers, histograms and summaries, and the text of floating-point values: the value of a series is given as text.
- Rounding of `f64` in the token bucket, and the shortest-digit generation behind `go_float`: the bucket computes over real numbers, and digits and exponent are inputs.
- The text of error messages; a duration error keeps its reason.
- LineScanner.Scanner.NextMatchingLine: requires that the scan answers, which `ReturnsIff` proves to be exactly when the loop ends.
- ResidentSet.SumRssValues: sizes wrap at 64 bits, as the optimized build does; a build with overflow checks stops instead.
