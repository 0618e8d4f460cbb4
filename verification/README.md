# Verified models of the repository scripts

This Dafny project models the algorithms behind the repository's scripts and
proves what they promise. Each source script has one or more modules; where the
script works by updating state, the model is a loop or a class whose contract
ties it to a function, and the theorems are about that function and about whole
runs.

- **Gate scheduler** (`GateGraph`, `GateScheduler`, `GateVerdicts`,
  `GateTraces`, `RunGates`): the cycle check, the scheduler as a state machine of start,
  settle and skip events with free settlement order, and the loop as one of its
  runs. The verdicts do not depend on interleaving, worker count or `after`
  edges, and the two "impossible" errors cannot occur.
- **Schema paths and pasted declarations** (`SchemaKeyPath`, `SchemaPath`,
  `SchemaMeaning`, `SchemaSoundness`, `SchemaExactness`, `SchemaCompleteness`,
  `SchemaGuard`, `SchemaKeyof`, `SchemaTermination`, `SchemaGrowth`,
  `SchemaDivergence`, `SchemaWalk`, `PasteClosure`): what the
  three-valued lookup over cyclic declarations says of the declared members,
  when it is right, when it terminates and when it overflows; the paste worklist
  computes exactly the reachable closure or reports a true violation.
- **Publication** (`Publication`, `PublicationRuns`, `PublicationLatest`,
  `PublicationReports`, `RegistryPublication`): each npm command is a step, a process may be restarted
  between any two, and the results hold over all such histories.
- **Vendor rename** (`Text`, `RescopeText`, `RescopeCells`, `RescopeLaws`,
  `RescopePatterns`, `RescopePasses`, `RescopeLines`, `RescopeTable`, `RescopeDocument`, `RescopeFile`): the two
  regular expressions character by character, their reading on lines cut at
  quotes, and the exact conditions of the round trip and of idempotence for the
  nine names and a whole file.
- **Smaller scripts**: the digest stream (`ArtifactDigest`), the worker pool
  (`PublintPool`, `ConcurrencyOverride`), the layered topological sort (`PackageGraph`, `PackageOrder`, `PackageReport`),
  HTML-comment masking (`MarkdownMask`, `MarkdownProse`, `MarkdownReport`), splicing by offset
  (`DocSplice`, `DocReport`), paired derivatives (`PairedDerivatives`) and project reference
  faces (`ProjectFaces`, `ReferenceWalk`, `ReferencePromise`, `ReferenceReport`).

`GateTraces`, `PublicationReports`, `RescopePatterns` and the modules named
`...Report` tell the outcome of an operation once more from its inputs alone, by
positions, counts, characters and literal names, and prove that the model's
outcome is the one told.

`Prelude`, `Text`, `Digraph` and `Sorting` hold what several models share.
`dafny verify dfyconfig.toml` verifies everything.

Four statements of the source do not hold as written, and the model follows the
code. `lookupPath` promises never to answer missing for what it cannot see
through (`scripts/gen-config-catalog.ts`, lines 309-316). It reads property
signatures by their written name, skips every other member and ignores type
parameters, so it answers missing for declared methods, accessors, index
signatures, quoted names and members of merged declarations, behind a type
parameter named like a declared type and behind a hidden wrapper, and found for
members of the operand of `keyof`. `SchemaExactness` and `SchemaKeyof` give a
lemma for each and the exact conditions on an interface, a type literal and a
`keyof` operand; `SchemaSoundness` has the condition under which every answer is
right. `scripts/project-reference-faces.ts` (lines 20-22) asks every reference
for the face of the aggregate the traversal began from; the code asks for the
face of the referring config, and `ReferencePromise` proves when an empty report
gives the former. The header of
`scripts/rescope-vendor.ts` (line 15) calls the rename idempotent; it is so
exactly when no eligible line has two tokens of one name sharing a quote
(`RescopeDocument.TextIsIdempotent`). Publication sets `latest` of the entry
package last, but a bundle whose own dist-tag is `latest` sets it when the entry
package is published; `latest` then stands for a complete release at all times
only if no package comes after the entry package (`PublicationLatest`).

## Model

| member | source | states |
|---|---|---|
| `GateGraph.ByIdFinds` | scripts/run-gates.ts:776 | With distinct ids the id table gives every gate back under its own id. |
| `GateGraph.EnterKeepsState` | scripts/run-gates.ts:788-789 | Entering a gate keeps the meaning of the shared search variables: the active gates are exactly those on the path, each at its recorded position, and the path follows predecessor edges. |
| `GateGraph.LeaveKeepsState` | scripts/run-gates.ts:794-796 | Leaving a gate whose predecessors are all complete keeps that meaning and extends a topological ranking of the complete gates. |
| `GateGraph.ActiveAncestorClosesCycle` | scripts/run-gates.ts:783-784 | Meeting an active gate again yields a genuine simple cycle: first equals last, each pair an edge, no other repetition. |
| `GateGraph.CycleFinder.Visit` | scripts/run-gates.ts:781-798 | A visit either returns a simple cycle or restores `active` and `path` exactly and leaves its gate complete, on any graph. |
| `GateGraph.AllCompleteIsRanked` | scripts/run-gates.ts:800-804 | Once every gate is complete the completion order ranks the graph, so the graph is acyclic. |
| `GateGraph.FindDependencyCycle` | scripts/run-gates.ts:775-805 | Returns nothing exactly when the union of `needs` and `after` is acyclic; anything returned is a simple cycle. |
| `GateGraph.ValidateGateGraph` | scripts/run-gates.ts:750-773 | Accepts exactly the non-empty graphs with distinct ids, known predecessors and no cycle; otherwise the error names the first offender. |
| `GateScheduler.ReadyGatesCommute` | scripts/run-gates.ts:831-866 | Running any ready gate next never changes the outcome of the sequential reference evaluation. |
| `GateScheduler.ReadinessAgrees` | scripts/run-gates.ts:877-888 | In a consistent state, readiness, blockedness and the skip message read from states agree with those read from results. |
| `GateScheduler.QuiescentChoicesAgree` | scripts/run-gates.ts:840-845 | With nothing running, the loop and the reference pick the same gate to start or to skip. |
| `GateScheduler.StartKeeps` | scripts/run-gates.ts:831-838 | Starting the first ready gate keeps the invariant, the worker bound and the eventual outcome. |
| `GateScheduler.SettleKeeps` | scripts/run-gates.ts:861-867 | Settling any running gate, whichever comes first, keeps the invariant and the eventual outcome. |
| `GateScheduler.SkipKeeps` | scripts/run-gates.ts:840-859 | Skipping the first blocked gate keeps the invariant and the eventual outcome. |
| `GateScheduler.ReachableStates` | scripts/run-gates.ts:825-868 | Every state of every run satisfies the invariant: states, running list and results agree, at most `maxActive` gates run, every running gate had its predecessors ready. |
| `GateVerdicts.ReferenceNeverStalls` | scripts/run-gates.ts:843-844 | In a validated graph, while a gate has no result some gate is ready or has a failed need. |
| `GateVerdicts.SchedulerNeverStalls` | scripts/run-gates.ts:840-844 | With nothing running, ready or blocked, every gate has a result: the stalled error is unreachable. |
| `GateVerdicts.RunsCanContinue` | scripts/run-gates.ts:829-868 | Every reachable state that is not finished has an enabled event. |
| `GateVerdicts.StepDecreases` | scripts/run-gates.ts:829-868 | Every event strictly decreases twice the pending gates plus the running ones. |
| `GateVerdicts.RunsAreFinite` | scripts/run-gates.ts:829-868 | No run has more than two events per gate. |
| `GateVerdicts.FinishedRunsAgree` | scripts/run-gates.ts:829-874 | A finished run recorded exactly the results of the sequential reference, skip messages included. |
| `GateVerdicts.Confluence` | scripts/run-gates.ts:815-875 | Two finished runs with any interleavings and any worker counts record the same results. |
| `GateVerdicts.SequentialIsDenoted` | scripts/run-gates.ts:843-866 | The reference, hence every finished run, ends each gate with its verdict. |
| `GateVerdicts.VerdictEquation` | scripts/run-gates.ts:843-866 | A verdict is the gate's own outcome if all its needs have verdict passed, otherwise skipped. |
| `GateVerdicts.VerdictIsUnique` | scripts/run-gates.ts:843-866 | In a validated graph nothing else satisfies that equation: the verdicts are determined by the graph of `needs` and the outcomes alone. |
| `GateVerdicts.StartedGates` | scripts/run-gates.ts:834-835 | The gates started so far are exactly those running or with an executed result. |
| `GateVerdicts.StartsAreLegal` | scripts/run-gates.ts:831-838 | Each start happens below the worker bound, for a gate never started before, after all its needs passed and its `after` gates settled, and no earlier gate in the list was ready. |
| `GateVerdicts.ExecutedGates` | scripts/run-gates.ts:877-880 | A finished run executed exactly the gates all of whose needs denote passed. |
| `GateVerdicts.ExitCodeIsVerdict` | scripts/run-gates.ts:106-110 | The process exits with 0 exactly when every gate that may not fail denotes passed. |
| `GateVerdicts.AfterEdgesDoNotMatter` | scripts/run-gates.ts:829-880 | Finished runs of two graphs that differ only in `after` edges, with any worker counts and interleavings, record the same status for every gate. |
| `GateTraces.EnabledIsLegal` | scripts/run-gates.ts:831-867 | In the state after a run, an event is enabled exactly when the events of the run allow it. |
| `GateTraces.RunsAreLegal` | scripts/run-gates.ts:829-888 | A list of events is a run of the loop exactly when each is legal after those before it: a start below the worker bound of the first untouched gate whose needs passed and whose `after` gates are over, a settlement of a started gate, a skip with nothing running and nothing ready of the first untouched gate with a need that failed or was skipped. |
| `GateTraces.FinishedIsTold` | scripts/run-gates.ts:829-830 | A run is finished exactly when every gate has settled or been skipped. |
| `GateTraces.ResultsAreTold` | scripts/run-gates.ts:840-859 | A recorded result is the executor's outcome of the gate, or the list of exactly those needs that had failed or been skipped at the skip, told from the events before it. |
| `RunGates.NoStall` | scripts/run-gates.ts:843-844 | The "stalled without a failed dependency" error cannot be reached from the loop. |
| `RunGates.NothingMissing` | scripts/run-gates.ts:870-874 | When the loop ends every gate has a result: the "missing result" error is unreachable. |
| `RunGates.StartReadyGates` | scripts/run-gates.ts:831-838 | The inner loop stops only with the pool full or no pending gate ready, and every start is a legal event. |
| `RunGates.SkipBlockedGate` | scripts/run-gates.ts:840-859 | The skip branch performs one legal skip event and makes progress. |
| `RunGates.SettleAnyGate` | scripts/run-gates.ts:861-867 | Awaiting any one running gate is a legal settle event and makes progress. |
| `RunGates.RunGates` | scripts/run-gates.ts:815-875 | Succeeds exactly for a valid graph and a positive safe worker count. Its events are then a list in which each is legal after those before it and at whose end every gate is over, and it returns one result for each gate, in list order: the outcome of the executed ones, and for a skipped gate the needs that had failed or been skipped when it was, in the order of `needs` and never none. |
| `SchemaKeyPath.PathComesBack` | scripts/gen-config-catalog.ts:232-245 | Parsing a key path loses nothing: every path is spelled back exactly, and the parsed steps are always spellable. |
| `SchemaKeyPath.StepsComeBackExactly` | scripts/gen-config-catalog.ts:232-245 | A list of steps that starts with a member is parsed back exactly when no name holds a dot or ends in brackets. |
| `SchemaKeyPath.StepsSpellPath` | scripts/gen-config-catalog.ts:232-245 | Written out, members after a dot and hops as a pair of brackets, the steps spell the path, and no name holds a dot or ends in brackets. |
| `SchemaKeyPath.OnlyTheseSpell` | scripts/gen-config-catalog.ts:232-245 | No other list of such steps spells the path. |
| `SchemaKeyPath.ParsePath` | scripts/gen-config-catalog.ts:232-245 | The loops compute the function that the two round trips are about. |
| `SchemaPath.SoundDecl` | scripts/gen-config-catalog.ts:317-361 | On a declaration, found comes with a derivation that the written property signatures list the path, missing with one that they do not. |
| `SchemaPath.SoundNode` | scripts/gen-config-catalog.ts:362-403 | The same for every type node, with any set of visited declarations. |
| `SchemaPath.SoundParts` | scripts/gen-config-catalog.ts:330-334 | Combining sound branch answers is sound for intersections and for unions. |
| `SchemaSoundness.AnswersAreSound` | scripts/gen-config-catalog.ts:309-403 | Where properties are written as they are named, no other member covers a name, no type parameter shares its name with a declaration or import of its file, and there is no `keyof`, merged declaration or hidden wrapper, found means the type has the path and missing means it does not; type arguments are substituted in that meaning. |
| `SchemaExactness.InterfaceExactness` | scripts/gen-config-catalog.ts:335-360 | On an interface without heritage the walk is right about every name exactly when every covered name is written as a property signature and every written name is covered; this fails for methods, accessors, index signatures, quoted and computed names and merged declarations. |
| `SchemaExactness.LiteralExactness` | scripts/gen-config-catalog.ts:362-365 | The same condition is exact on a type literal. |
| `SchemaKeyof.NamesTellNode` | scripts/gen-config-catalog.ts:362-403 | One reading of a type computes the set of all names its text lists behind a path and the set of those it does not, each finite or all but finitely many, through references, composites, arrays and indexed accesses. |
| `SchemaKeyof.KeyofExactness` | scripts/gen-config-catalog.ts:380 | On `keyof T` finding a member is never right and missing one is: where no declaration is reached twice and the stack suffices, the walk is right about every name that is no member of a string, number or symbol exactly when the text of `T` lists no such name. |
| `SchemaKeyof.KeyofIsRight` | scripts/gen-config-catalog.ts:380 | If the text of `T` lists none, the walk is right whether or not the guard fires. |
| `SchemaKeyof.KeyofKeepsPromise` | scripts/gen-config-catalog.ts:315-316 | The promise, unknown for what the walk cannot see through, is kept on `keyof T` for every name exactly when the text of `T` tells nothing of any name. |
| `SchemaKeyof.KeyofReturns` | scripts/gen-config-catalog.ts:380 | One stack depth is enough for all names when a budget pays for the operand. |
| `SchemaKeyof.KeyofLiteral` | scripts/gen-config-catalog.ts:362-380 | On `keyof` of a type literal every name gets a definite answer, which, for names that are no members of a string, number or symbol, is wrong exactly for the written ones. |
| `SchemaKeyof.KeyofInterface` | scripts/gen-config-catalog.ts:335-380 | The same on `keyof` of an interface without heritage. |
| `SchemaKeyof.OpaqueKeyof` | scripts/gen-config-catalog.ts:387-403 | On `keyof` of an unresolved, qualified or enum reference, of another type, of an array and of composites of these, no path that starts with a name gets a definite answer, whatever was seen before. |
| `SchemaExactness.MethodIsMissed` | scripts/gen-config-catalog.ts:338 | A method or accessor is declared, so present, and reported missing. |
| `SchemaExactness.LiteralMethodIsMissed` | scripts/gen-config-catalog.ts:362-365 | The same in a type literal. |
| `SchemaExactness.IndexSignatureIsMissed` | scripts/gen-config-catalog.ts:338 | Every name under an index signature is covered and reported missing. |
| `SchemaExactness.QuotedNameIsMissed` | scripts/gen-config-catalog.ts:338 | A quoted property is reported missing for its key, which has no quotes. |
| `SchemaExactness.MergedMemberIsMissed` | scripts/gen-config-catalog.ts:133-139 | A member of a second declaration of an interface, or of a class of the same name, is present and reported missing. |
| `SchemaExactness.HiddenWrapperIsMissed` | scripts/gen-config-catalog.ts:388-393 | With a generic alias named like a wrapper in the file, the walk looks into the argument and reports a member of the alias missing. |
| `SchemaExactness.ParameterIsMissed` | scripts/gen-config-catalog.ts:387-401 | With a type parameter named like an interface of the file, the walk reads the interface and reports missing what the type argument has. |
| `SchemaKeyof.KeyofIsFound` | scripts/gen-config-catalog.ts:380 | On `keyof { x: T }` the walk reports `x` found, which the type lacks, and rightly reports another name missing. |
| `SchemaMeaning.NeverBoth` | scripts/gen-config-catalog.ts:223-226 | No path is both present and absent in a type, judged by its declared members. |
| `SchemaCompleteness.TextIsAnswered` | scripts/gen-config-catalog.ts:322-326 | If the guard never fires and the stack suffices, found is answered exactly when the written properties list the path, missing exactly when they do not: the guard is the only source of lost answers. |
| `SchemaCompleteness.AnswersAreComplete` | scripts/gen-config-catalog.ts:317-403 | In a world the walk reads correctly and without type parameters, found is then answered exactly for present paths and missing exactly for absent ones. |
| `SchemaCompleteness.ParameterIsUnknown` | scripts/gen-config-catalog.ts:400-401 | With a type parameter an answer can be lost: what its argument has is unknown to the walk. |
| `SchemaGuard.ApartIsAnswered` | scripts/gen-config-catalog.ts:319-326 | If no declaration can be reached twice with one path length, told from the declarations and the length alone, the guard never fires and no answer is lost on any path of that length. |
| `SchemaPath.AnswersNeverContradict` | scripts/gen-config-catalog.ts:317-403 | Two calls with different visited sets never answer found and missing for one query. |
| `SchemaTermination.EnteringUsesReserve` | scripts/gen-config-catalog.ts:322-326 | Each first visit to a declaration at a path length uses up part of a finite reserve. |
| `SchemaTermination.WalkReturns` | scripts/gen-config-catalog.ts:317-403 | If every declaration has a budget that pays for the indexed accesses on its references, less the keys consumed, the walk returns a real answer on every query and more stack does not change it. |
| `SchemaGrowth.WalkTerminates` | scripts/gen-config-catalog.ts:317-403 | In particular if no cycle of references goes through an indexed access, recursive and self-extending types included. |
| `SchemaDivergence.GrowingCycleOverflows` | scripts/gen-config-catalog.ts:361-402 | A cycle of references that consume no key and go through an indexed access makes every stack overflow, on every path that is not empty. |
| `SchemaDivergence.TerminationIsExact` | scripts/gen-config-catalog.ts:361-402 | Among aliases without object types and arrays, the walk returns on every query exactly when no cycle of references goes through an indexed access. |
| `SchemaTermination.SelfIndexedOverflows` | scripts/gen-config-catalog.ts:381-386 | With `type A = A['x']` the guard never fires and every stack overflows: the path grows in each round. |
| `SchemaTermination.SeenCanHelp` | scripts/gen-config-catalog.ts:322-326 | The answer is neither complete nor monotone in the visited set: a path listed in every branch is unknown from the empty set and found from a larger one. |
| `SchemaWalk.PathWalk.VisitDecl` | scripts/gen-config-catalog.ts:317-361 | With the visited set as shared mutable state, a declaration visit answers and updates the set as the threaded function does. |
| `SchemaWalk.PathWalk.VisitBases` | scripts/gen-config-catalog.ts:347-359 | The heritage loop passes one visited set through all bases in order. |
| `SchemaWalk.PathWalk.VisitAll` | scripts/gen-config-catalog.ts:367-376 | All branches of an intersection or a union are visited, in order, with one visited set. |
| `SchemaWalk.PathWalk.VisitNode` | scripts/gen-config-catalog.ts:362-403 | A node visit answers and updates the set as the threaded function does. |
| `SchemaWalk.CheckPath` | scripts/gen-config-catalog.ts:760 | The check parses the key path and walks it from an empty visited set, as the threaded function does. |
| `SchemaWalk.CheckIsDecided` | scripts/gen-config-catalog.ts:759-763 | As a whole: without a growing reference cycle the check of a key path has one real answer from some stack depth on. In a world the walk reads correctly a missing path is absent and a found one present; without type parameters, and if no declaration is reached twice at that path length, it is missing exactly for absent paths and found exactly for present ones. |
| `PasteClosure.PasteKeeps` | scripts/gen-config-catalog.ts:706-714 | Pasting a declaration under a fresh name keeps the worklist invariant and queues its non-global mentions. |
| `PasteClosure.ImportKeeps` | scripts/gen-config-catalog.ts:687-693 | Recording an import under a name with no other meaning keeps the invariant. |
| `PasteClosure.AllProcessed` | scripts/gen-config-catalog.ts:671-715 | With an empty queue and no violation, every reachable name has exactly one meaning. |
| `PasteClosure.PasteClosure` | scripts/gen-config-catalog.ts:663-715 | Terminates on cyclic types; reports no violation exactly when every name of the closure has one meaning, and then pastes exactly the reachable declarations; every violation reported is true. A local config type is pasted first, each name once, and the pastes and the violations come in the breadth-first order of the worklist. |
| `Publication.VerificationIsExact` | scripts/publish-npm-baseline.ts:662-698 | Verification succeeds exactly when every package has the bundle's integrity and dist-tag and `latest` of the entry package is the release. |
| `Publication.SettlingKeeps` | scripts/publish-npm-baseline.ts:630-650 | Publishing or tagging one package completes one more package and does not change the eventual outcome. |
| `Publication.PromotingKeeps` | scripts/publish-npm-baseline.ts:651 | Moving `latest` keeps everything complete and does not change the eventual outcome. |
| `PublicationRuns.RunsKeepInvariant` | scripts/publish-npm-baseline.ts:625-654 | Every state of every run with restarts satisfies the protocol invariant. |
| `PublicationRuns.StoredIntegrityIsImmutable` | scripts/publish-npm-baseline.ts:630-651 | Over every run with crashes and restarts a stored integrity never changes, only absent bundled versions appear, and only the bundle's tags move. |
| `PublicationRuns.StepCounts` | scripts/publish-npm-baseline.ts:625-654 | Every command of an uninterrupted run reduces the number of commands left. |
| `PublicationRuns.ProcessMatchesOutcome` | scripts/publish-npm-baseline.ts:630-654 | The command-by-command process ends as the big-step outcome says. |
| `PublicationRuns.CrashesAreInvisible` | scripts/publish-npm-baseline.ts:625-654 | After any interrupted history, a restart run to its end gives the registry and the result of one uninterrupted run from the original registry. |
| `PublicationRuns.SuccessIffPublishable` | scripts/publish-npm-baseline.ts:630-654 | A run succeeds exactly when nothing conflicts with the bundle; otherwise it names the first refused package. |
| `PublicationRuns.UninterruptedRun` | scripts/publish-npm-baseline.ts:625-654 | A crash-free run completes exactly for a publishable bundle, adds only what was absent, and then verification succeeds. |
| `PublicationLatest.LatestMeansComplete` | scripts/publish-npm-baseline.ts:649-651 | Unless the bundle tags `latest` early, over every run `latest` reaches the release only once every package has its integrity and dist-tag. |
| `PublicationLatest.LatestCanComeEarly` | scripts/publish-npm-baseline.ts:649-651 | The condition is exact: a bundle whose dist-tag is `latest`, with a package after the entry package, has a run where `latest` is the release and a package is missing. |
| `PublicationReports.VerifyIsTold` | scripts/publish-npm-baseline.ts:662-698 | What verification reports, on stored integrities and tags alone. |
| `PublicationReports.RunIsTold` | scripts/publish-npm-baseline.ts:625-654 | What a run writes and reports, for every bundle and registry: all packages before the first conflict, then the reason of the conflict, or `latest` moved, or the reason why it cannot be. |
| `RegistryPublication.Npm.Publish` | scripts/publish-npm-baseline.ts:633-638 | A publish stores a new version and sets the one tag it names; an existing version is left alone and rejected. |
| `RegistryPublication.Publisher.EnsureDistTag` | scripts/publish-npm-baseline.ts:755-764 | Afterwards the tag is the release, or nothing changed and the error says why. |
| `RegistryPublication.Publisher.PublishOne` | scripts/publish-npm-baseline.ts:631-649 | One package ends settled, or the run stops with its refusal and an unchanged registry. |
| `RegistryPublication.Publisher.Publish` | scripts/publish-npm-baseline.ts:625-654 | The loop's registry and error are those of the big-step outcome, and on success everything is complete. Told from the registry: the packages before the first conflict are published and tagged, the conflict gives its reason, and nothing else is written. |
| `RegistryPublication.Publisher.Verify` | scripts/publish-npm-baseline.ts:662-698 | The loop changes nothing and reports the first package in order that is not in place: missing if its version is absent, without integrity or mismatched if the stored one is unusable or differs, with the tag found otherwise; with all in place it reports on `latest` of the entry package. |
| `ArtifactDigest.DecodeEncode` | scripts/client-build-environment.ts:254-261 | A decoder undoes the length-prefixed encoding of any list of paths and contents, whatever bytes they hold. |
| `ArtifactDigest.EncodeDecode` | scripts/client-build-environment.ts:254-261 | Whatever the decoder accepts is the encoding of what it returns. |
| `ArtifactDigest.StreamDeterminesFiles` | scripts/client-build-environment.ts:254-261 | Equal streams come from equal lists of paths and contents. |
| `ArtifactDigest.EncodeIsStream` | scripts/client-build-environment.ts:254-261 | The stream is, for each file in order, the decimal length, a colon and the bytes of its path, then the same of its content; decimals are read back digit by digit. |
| `ArtifactDigest.ClientArtifactDigest` | scripts/client-build-environment.ts:252-262 | The loop feeds the hash exactly the encoding and counts the files; an empty list is an error. |
| `RescopeCells.TokensMatch` | scripts/rescope-vendor.ts:530 | On a line cut at quotes and line terminators, the token expression rewrites exactly the cells between two equal quotes that hold the name or the name with a subpath. |
| `RescopeCells.YamlMatches` | scripts/rescope-vendor.ts:531 | The YAML expression rewrites exactly the cells whose `name:` value is the name. |
| `RescopeLaws.ImageFacts` | scripts/rescope-vendor.ts:530-531 | A rewritten cell matches the reverse rule, which restores it. |
| `RescopeLaws.FormsExclude` | scripts/rescope-vendor.ts:520-533 | A cell in one name's form, old or new, is in no other rule's form: no output feeds another pattern. |
| `RescopePatterns.TokenIsTold` | scripts/rescope-vendor.ts:530 | A token of a given length is a quote, the name, nothing or a slash with characters that are neither quotes nor white space, and the same quote. |
| `RescopePatterns.ReplaceTokensIsTold` | scripts/rescope-vendor.ts:543 | A text without a token stays; otherwise the name in the first token is replaced, what is before and its subpath and quotes stay, and the search goes on behind it. |
| `RescopePatterns.YamlLineIsTold` | scripts/rescope-vendor.ts:531 | A line is rewritten exactly where it reads white space, perhaps a dash and white space, `name:`, one blank or more, the name, and then only blanks or a comment; any other line stays. |
| `RescopePatterns.YamlNamesAreTold` | scripts/rescope-vendor.ts:531 | Lines between line terminators are rewritten one by one. |
| `RescopePatterns.NamesInTurn` | scripts/rescope-vendor.ts:539-547 | A line goes through the names in turn, the tokens of each first and its YAML names next. |
| `RescopePasses.Commute` | scripts/rescope-vendor.ts:539-547 | Rewrites of different names commute on every line, shared quotes included. |
| `RescopePasses.UndoAll` | scripts/rescope-vendor.ts:539-547 | Running all rules forward and then backward restores a line exactly when it held no stray target. |
| `RescopePasses.RepeatAll` | scripts/rescope-vendor.ts:539-547 | A second forward pass is idle exactly when no name has two tokens sharing a quote. |
| `RescopeLines.LineComesBack` | scripts/rescope-vendor.ts:539-547 | Reverse undoes forward on a line exactly when it holds no stray scoped name. |
| `RescopeLines.CleanLineComesBack` | scripts/rescope-vendor.ts:539-547 | In particular on every line without an already scoped name in token or YAML form. |
| `RescopeLines.LineIsIdempotent` | scripts/rescope-vendor.ts:15 | A second pass changes nothing exactly when no two tokens of one name share a quote; the unconditional claim in the header comment does not hold. |
| `RescopeTable.OneOrderForBothDirections` | scripts/rescope-vendor.ts:46-56 | Sorting the table by the length of the searched name gives both directions the same order of names. |
| `RescopeTable.PluginsAreTold` | scripts/rescope-vendor.ts:50-52 | The first three plugin names and their scoped names. |
| `RescopeTable.LaterPluginsAreTold` | scripts/rescope-vendor.ts:53-55 | The last three plugin names and their scoped names, and that there are nine names. |
| `RescopeTable.CoresAreTold` | scripts/rescope-vendor.ts:47-49 | The three core names and their scoped names. |
| `RescopeDocument.LineKeepsFence` | scripts/rescope-vendor.ts:566-570 | No rewrite creates or destroys a fence line. |
| `RescopeDocument.LineStaysOneLine` | scripts/rescope-vendor.ts:565-577 | No rewrite introduces a line feed, so lines stay lines. |
| `RescopeDocument.TextComesBack` | scripts/rescope-vendor.ts:560-578 | Reverse undoes forward on a whole file exactly when no eligible line holds a stray scoped name. |
| `RescopeDocument.CleanTextComesBack` | scripts/rescope-vendor.ts:560-578 | A file without already scoped names always comes back, Markdown fences and prose rules included. |
| `RescopeDocument.TextIsIdempotent` | scripts/rescope-vendor.ts:15 | A second pass over a file is idle exactly when no eligible line has two tokens of one name sharing a quote. |
| `RescopeDocument.SharedQuoteIsRewrittenTwice` | scripts/rescope-vendor.ts:15 | On `'cordis'cordis'` the second pass rewrites again: idempotence fails there. |
| `RescopeDocument.LinesAreTold` | scripts/rescope-vendor.ts:565-576 | Which lines are rewritten, by counting the fence lines before each one. |
| `RescopeDocument.ChangesAreTold` | scripts/rescope-vendor.ts:573-574 | The count is the number of positions where the lines differ. |
| `RescopeDocument.Rewrite` | scripts/rescope-vendor.ts:560-578 | The line loop with its fence flag computes the rewriting and the number of lines that differ. Outside Markdown every line is rewritten; in Markdown a line is rewritten exactly when it is no fence line and either prose is renamed or an odd number of fence lines comes before it. |
| `RescopeFile.TableIsCompatible` | scripts/rescope-vendor.ts:46-56 | The nine vendored names are pairwise independent in both directions. |
| `RescopeFile.FileRoundTrip` | scripts/rescope-vendor.ts:520-578 | For the vendored names and any set of skipped ones, round trip and idempotence hold exactly under those conditions. |
| `PublintPool.ClaimKeeps` | scripts/publint-all.ts:208-212 | Claiming the next index keeps the accounting of every claim: in a worker's hands or stored. |
| `PublintPool.SettleKeeps` | scripts/publint-all.ts:213 | Storing a result keeps the accounting. |
| `PublintPool.EveryInterleaving` | scripts/publint-all.ts:204-215 | Under every interleaving: claims are 0, 1, 2 and so on, each once, each held by one worker or stored with the linter's answer; the number of moves is exactly claims plus results plus retired workers. |
| `PublintPool.PoolLimits` | scripts/publint-all.ts:204-215 | Each target is claimed at most once, at most `concurrency` are in flight, and the counter never exceeds targets plus finished workers. |
| `PublintPool.PoolNeverStalls` | scripts/publint-all.ts:207-215 | A worker that has not finished can always move. |
| `PublintPool.FinishedPoolsAgree` | scripts/publint-all.ts:217-221 | When all workers are done the results are the linter's answers in target order; the missing-result error arises exactly for no worker and some target; with a worker each target was run exactly once. |
| `PublintPool.RunAll` | scripts/publint-all.ts:204-222 | The pool returns that outcome whatever worker moves next. |
| `ConcurrencyOverride.OverrideIsCanonical` | scripts/publint-all.ts:66-70 | The override is accepted exactly when it is the plain decimal text of a safe integer of at least one, and then as that integer. |
| `ConcurrencyOverride.OverrideIsRejected` | scripts/publint-all.ts:66-70 | Everything else is rejected. |
| `ConcurrencyOverride.ConcurrencyIsExact` | scripts/publint-all.ts:62-75 | The count is the smaller of the targets and the override, or the available parallelism when the override is unset or empty; the override is read digit by digit, without leading zeros, up to 9007199254740991. |
| `ConcurrencyOverride.ConcurrencyFailsExactly` | scripts/publint-all.ts:62-75 | With targets to lint, the count is an error exactly for a non-empty override whose digits spell no such integer of at least one. |
| `PublintPool.LintAll` | scripts/publint-all.ts:237-240 | As called, the pool returns every target's answer in order: the missing-result error is unreachable. |
| `PackageGraph.IndexOf` | scripts/package-graph.ts:78-81 | The rank of a group is its first position in the given order, or absent exactly when it is not listed. |
| `PackageGraph.CompareIsTotal` | scripts/package-graph.ts:77-83 | Group rank, group name and package name give a total order. |
| `PackageGraph.CompareTies` | scripts/package-graph.ts:77-83 | Packages that compare equal share their name. |
| `PackageGraph.EntriesAreDistinct` | scripts/package-graph.ts:60 | The name table has distinct names, and each keeps the last package listed under it. |
| `PackageOrder.ThrowsExactlyWhenTrapped` | scripts/package-graph.ts:67 | The sort throws exactly when some package reaches a cycle or a name that is not a package, and the error lists exactly those packages. |
| `PackageOrder.SucceedsExactlyWhenAcyclic` | scripts/package-graph.ts:59-75 | A result exists exactly when every dependency is a package and there is no cycle. |
| `PackageOrder.ResultIsByDepth` | scripts/package-graph.ts:63-83 | A result is a permutation of the packages sorted by dependency depth, then by the comparator. |
| `PackageOrder.DependenciesComeFirst` | scripts/package-graph.ts:65 | Every dependency stands before its dependent. |
| `PackageOrder.InputOrderDoesNotMatter` | scripts/package-graph.ts:59-75 | The same packages in another input order give the same output, or an error over the same names. |
| `PackageOrder.TopoSort` | scripts/package-graph.ts:59-75 | The loop over `remaining`, `placed` and `out` computes the order these results are about. |
| `PackageReport.CompareIsTold` | scripts/package-graph.ts:77-83 | One package comes before another by the first position of its group in the list, listed groups before others, then by group name, then by package name. |
| `PackageReport.OrderIsTold` | scripts/package-graph.ts:59-83 | A result lists every package once, sorted by depth, listed group, group name and package name, where the depth is zero without dependencies and otherwise one more than that of the deepest dependency. |
| `PackageReport.EntriesInOrder` | scripts/package-graph.ts:60 | The table lists names in the order in which they first occur. |
| `PackageReport.ErrorIsTold` | scripts/package-graph.ts:67 | The error lists exactly the packages that reach a cycle or an unknown name, in the order in which names first occur in the input. |
| `MarkdownMask.CommentsInOrder` | scripts/markdown.ts:208-214 | The scan finds comments in order and without overlap, each running to the first closer after its opener or to the end of the node. |
| `MarkdownMask.CommentsAreMaximal` | scripts/markdown.ts:208-214 | No opener is left outside the comments. |
| `MarkdownMask.SourceCommentsCover` | scripts/markdown.ts:204-216 | An absolute offset is covered exactly when it lies in a comment of some HTML node, taken at the offset of that node. |
| `MarkdownMask.LineRangesCover` | scripts/markdown.ts:221-230 | A column of a line is covered exactly when its absolute offset lies in a comment. |
| `MarkdownMask.VisibleIsOutside` | scripts/markdown.ts:237-247 | Walking the gaps of sorted ranges, overlapping or not, collects exactly the uncovered characters. |
| `MarkdownProse.RenderedTextIsUncovered` | scripts/markdown.ts:237-248 | A line shows text exactly when some uncovered character is not white space, whatever the order of its ranges. |
| `MarkdownProse.LineStandsAt` | scripts/markdown.ts:219-232 | Each line stands in the source at the offset the loop computes. |
| `MarkdownProse.KeptExactlyWhenVisible` | scripts/markdown.ts:203-271 | A line outside code is kept exactly when no comment meets it or one of its characters, not white space, has an absolute offset outside every comment; empty lines included. |
| `MarkdownProse.KeptLists` | scripts/markdown.ts:263-270 | The result holds exactly the kept lines with their numbers. |
| `MarkdownProse.KeptInOrder` | scripts/markdown.ts:263-270 | They come in source order. |
| `MarkdownProse.HtmlCommentRanges` | scripts/markdown.ts:203-234 | The loops record for each line the columns under the comments that meet it, and nothing for an untouched line. |
| `MarkdownProse.HasRenderedText` | scripts/markdown.ts:237-248 | The cursor walk answers as the function these results are about. |
| `MarkdownProse.MarkdownProseLines` | scripts/markdown.ts:255-271 | The final loop returns the kept lines. |
| `MarkdownReport.ProseIsTold` | scripts/markdown.ts:203-271 | The kept lines, on the characters of the source: with lines, starts and comments fixed by line feeds and comment signs, a line is listed under its number, in order, exactly when no code block holds it and either no comment goes over a character of it, or over its line feed if it is empty, or some character outside all comments is not white space. |
| `MarkdownReport.CommentsAreTold` | scripts/markdown.ts:208-214 | The comments of a node run, in order and disjoint, from `<!--` to the first `-->` four or more characters later, or to the end, and no `<!--` is outside them. |
| `MarkdownReport.CommentsAreUnique` | scripts/markdown.ts:208-214 | No other list has these properties. |
| `DocSplice.GapIsUnchanged` | scripts/project-doc-site.ts:197-200 | Simultaneous substitution leaves every gap between ranges as in the source. |
| `DocSplice.RangeHoldsValue` | scripts/project-doc-site.ts:197-200 | At each range it gives the new value. |
| `DocSplice.ProjectSubstitutes` | scripts/project-doc-site.ts:197-200 | Splicing disjoint non-empty ranges from the last start back equals simultaneous substitution. |
| `DocSplice.CollectedOrderDoesNotMatter` | scripts/project-doc-site.ts:189-198 | The result does not depend on the order in which the ranges were collected. |
| `DocSplice.VisitIsExact` | scripts/project-doc-site.ts:162-194 | A replacement is collected exactly when some link, image or definition of the tree has a destination with a new URL for it. |
| `DocSplice.VisitFailsExactly` | scripts/project-doc-site.ts:131 | The visit fails exactly when some destination names a missing path, with such a path. |
| `DocSplice.Collect` | scripts/project-doc-site.ts:189-195 | The recursive visit pushes those replacements in pre-order and stops at the first missing path. |
| `DocSplice.RewriteMarkdown` | scripts/project-doc-site.ts:156-202 | Collecting, sorting and splicing compute the projection of what the visit collects, or its error. |
| `DocReport.VisitIsTold` | scripts/project-doc-site.ts:162-195 | The k-th node in reading order that changes its destination gives the k-th replacement, once, and nothing else does; the error is the first missing path in that order. |
| `DocReport.CollectedIsDisjoint` | scripts/project-doc-site.ts:182-198 | What is collected from destinations that do not overlap is disjoint, as the splice needs. |
| `DocReport.ProjectionIsTold` | scripts/project-doc-site.ts:156-202 | The result is the first missing path, or, for destinations that do not overlap, the source with exactly the changing destinations substituted. |
| `PairedDerivatives.PartitionKeepsBlocks` | scripts/paired-markdown-derivatives.ts:57-62 | Every block is in exactly one part, as often as it was scanned. |
| `PairedDerivatives.PartitionIsStable` | scripts/paired-markdown-derivatives.ts:57-62 | A page goes to one part as a whole, its blocks in scan order. |
| `PairedDerivatives.OriginalIsPrimary` | scripts/paired-markdown-derivatives.ts:43-55 | The chain of siblings of a page leads to a primary page whose blocks carry the same fingerprints, however long the chain. |
| `PairedDerivatives.EveryDerivativeIsChecked` | scripts/paired-markdown-derivatives.ts:43-62 | For each derivative block a primary block of a page on its chain of siblings, with an equal fingerprint, stands at the same index: no check is lost. |
| `PairedDerivatives.GroupByDoc` | scripts/paired-markdown-derivatives.ts:35-41 | The table lists each page's blocks in scan order. |
| `PairedDerivatives.DerivativeDocs` | scripts/paired-markdown-derivatives.ts:43-55 | A page is a derivative exactly when its sibling has as many blocks with equal fingerprints in order. |
| `PairedDerivatives.PartitionPairedMarkdownDerivatives` | scripts/paired-markdown-derivatives.ts:30-63 | The three loops compute the partition. |
| `PairedDerivatives.SiblingIsTold` | scripts/paired-markdown-derivatives.ts:16-18 | The sibling of `base.zh.md` is `base.md`, and no other page has one. |
| `PairedDerivatives.PartitionIsTold` | scripts/paired-markdown-derivatives.ts:30-63 | The derivatives are, in scan order, the blocks of pages `base.zh.md` whose fingerprints are those of a page `base.md` with blocks; the primary ones are all others, in scan order. |
| `ProjectFaces.FaceIsFirstNamed` | scripts/project-reference-faces.ts:88-103 | A config has the face of the first config along its `extends` chain that tells one; the search ends on cycles. |
| `ProjectFaces.InnermostSplitRoot` | scripts/project-reference-faces.ts:65-121 | The split project found for a path is the innermost one that contains it. |
| `ReferenceWalk.DoneIsReachable` | scripts/project-reference-faces.ts:35-60 | When the worklist is empty the visited configs are exactly the existing ones reachable from either aggregate through references that do not mismatch. |
| `ReferenceWalk.ReportIsExact` | scripts/project-reference-faces.ts:40-62 | A diagnostic is reported exactly when a reachable config has a mismatched reference that renders to it. |
| `ReferenceWalk.ReportIgnoresOrder` | scripts/project-reference-faces.ts:62 | The sorted report does not depend on the order of traversal. |
| `ReferenceWalk.ScanReferences` | scripts/project-reference-faces.ts:40-59 | Scanning one config reports its mismatches and queues its other targets. |
| `ReferenceWalk.CollectProjectReferenceFaceViolations` | scripts/project-reference-faces.ts:30-63 | The traversal ends on cyclic graphs; its report holds exactly the lines of mismatched references of reachable configs and equals the report of any enumeration of them. |
| `ReferenceReport.FaceIsTold` | scripts/project-reference-faces.ts:88-103 | A config has a face exactly when some config along `extends` is the first whose path tells one: a leaf config by its name, the root's base configs by theirs. |
| `ReferenceReport.ReportIsTold` | scripts/project-reference-faces.ts:40-62 | A line is reported exactly when it renders a faulty reference of a visited config: one into a split project from a config without a face, or not by `tsconfig.host.json` or `tsconfig.client.json` as the face asks. |
| `ReferenceReport.ReportIsOrdered` | scripts/project-reference-faces.ts:62 | The report is sorted character by character. |
| `ReferenceReport.ReportCounts` | scripts/project-reference-faces.ts:40-62 | A line is reported as often as references of visited configs render to it. |
| `ReferencePromise.EmptyReportIsClean` | scripts/project-reference-faces.ts:30-63 | The report is empty exactly when every reference of a reachable config agrees with the face of the config that holds it. |
| `ReferencePromise.IsolationIsExact` | scripts/project-reference-faces.ts:20-26 | With an empty report, every reference reached from an aggregate enters split projects by the leaf of that aggregate, as documented, exactly when each config that refers into one has the face of each aggregate it is reached from. |
| `ReferencePromise.NeutralCrosses` | scripts/project-reference-faces.ts:20-26 | A neutral config that extends the client base leads from the host aggregate into a client leaf, and nothing is reported. |

## Left out

- Outputs, durations, exit and signal codes of gates, and the printed summary: the scheduler never reads them; `runGate` resolves in every case, so an executor is a total function to a status.
- GateGraph.FindDependencyCycle: which of several cycles is returned is not stated; a reader of the message needs one that exists.
- Fractional, infinite or NaN worker counts: `maxActive` is an integer, and the range check is the one for safe integers.
- The gate tables, mode parsing and environment variables of `scripts/run-gates.ts`: finite data.
- `declForTypeName`, `findExportedTypeDecl` and `resolveTypeName`: a table from file and name to a declaration, with unknown for the rest; it is taken as the meaning of names.
- Source positions of declarations in the paste worklist are file and line as the script prints them; two declarations on one line would share an identity there as in the script.
- Member documentation checks and rendering of the catalog: text assembly.
- SchemaSoundness.AnswersAreSound: the condition on a whole world is sufficient; its converse is proved for an interface without heritage, a type literal and a `keyof` operand, because a misread member behind a branch the walk cannot see through never reaches an answer.
- SchemaCompleteness.AnswersAreComplete: without type parameters, because the walk knows nothing of them (`SchemaCompleteness.ParameterIsUnknown`).
- SchemaKeyof.KeyofExactness: where the guard fires an answer may be lost, so the condition is then only sufficient (`SchemaKeyof.KeyofIsRight`); whether `keyof T` has the members that strings, numbers or symbols have is left undecided.
- SchemaGrowth.WalkTerminates: a cycle through an indexed access that also consumes keys may terminate or not, depending on the names; `SchemaTermination.WalkReturns` covers those with a budget, and exactness is proved where nothing is consumed. The stack is a number of call frames.
- Defaults and constraints of type parameters: a parameter without an argument is undecided, and a config type is taken without arguments.
- Index signatures over numbers, symbols or templates, and the members every object has from the library.
- Publication assumes one publisher at a time and no registry failures other than the answers modelled; `npm ping`, `whoami` and the confirmation happen before any write and are not modelled; a registry that sets `latest` on its own is not modelled.
- Parsing of `npm dist-tag ls` output and loading of the release manifest: their guarantees (distinct names, `sha512-` integrities, a non-empty list) are assumed of a bundle.
- Hash functions: only the stream and its injectivity are proved; paths are byte strings, and come sorted as the directory walk returns them.
- `EXACT_EDITS`, `classify`, the file walk and the modes of `scripts/rescope-vendor.ts`; which names a file skips is an arbitrary set.
- White space before `name:` may reach over line terminators other than a line feed within one line; such a match rewrites the same text as the match on the last of those lines, which is how it is modelled.
- The linter and its reports: one answer per target; a thrown error is itself an answer in the script.
- PackageReport.CompareIsTold: for lists of groups no longer than the largest safe integer, which no array exceeds; `PackageReport.OrderIsTold` likewise.
- `localeCompare` is any strict total order on strings; manifests and paths of packages are inputs.
- Markdown parsing, destinations of links and resolution of their targets: HTML nodes, code blocks, destination ranges and new URLs are inputs.
- DocReport.ProjectionIsTold: for destinations that are empty or overlap, which parsed Markdown does not give, only what is collected is told.
- Reading and parsing of tsconfig files, `existsSync` and path resolution: a table of existing configs with resolved references; a config that fails to parse, which aborts the script, is not modelled.
- Rendering of diagnostics: any function from a violation to text; texts are ordered by characters, which is the script's order by UTF-16 code units for characters of the basic plane.
- Not modelled: catalog renderers, build and release scripts, session fixture layout and test invariants.
