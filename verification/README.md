# Models of the build and CI scripts

Dafny models of the scripts under `relay-harness/scripts` that contain algorithms, with proofs of
what those algorithms are for. `dafny verify dfyconfig.toml` checks everything.

- **Gates** (`GateGraph`, `GateSchedule`, `GateRuns`, `GateLogs`, `GateRunner`; `run-gates.ts`). A gate list is
  validated, then run with bounded concurrency; `needs` edges must pass, `after` edges must settle,
  and a failed need skips its dependents. The scheduler is a transition system over its log of
  starts, settlements and skips, in which any running gate may settle first. `RunGates` is the loop
  itself, proved to produce a complete legal log. The reference is `OneWorker`, a run that never
  overlaps two gates, and a status equation with a single solution. `GateLogs` says in terms of the
  log and the recorded results alone which logs the scheduler produces.
- **Config catalog** (`TypePaths`, `TypePathPrecision`, `TypePathTermination`, `TypePathPresence`,
  `PathLookup`, `ExportChains`, `TypeWorlds`, `NameResolution`, `PasteClosure`;
  `gen-config-catalog.ts`). The three-valued member lookup over cyclic type declarations, the two
  ways a type name is resolved, and the worklist that pastes a config type with everything it
  references. The meaning of the lookup's verdicts is given by derivations (`Has`, `Lacks`) that
  know nothing of the visited set. `TypeWorlds` builds the lookup's world, and `NameResolution` the
  worklist's, from the files.
- **Publication** (`Publication`, `PublicationRuns`, `PublicationOutcomes`, `RegistryPublication`;
  `publish-npm-baseline.ts`). A bundle is published one registry operation at a time; a run may die
  between any two operations and be started again, and other publishers may act in between.
- **Shell quoting** (`ShellWords`; `publish-npm-baseline.ts`), against the token recognition and
  quote removal of sections 2.2, 2.3 and 2.6.7 of the POSIX.1 Shell Command Language.
- **Package layers** (`PackageLayers`; `package-graph.ts`) and **reference faces**
  (`ReferenceFaces`; `project-reference-faces.ts`).
- **Worker pool** (`WorkerPool`; `publint-all.ts`), over every interleaving at its one `await`.
- **Text machines**: `JsDocProse` (`jsdoc.ts`), `HtmlComments` and `CommentSweep` (`markdown.ts`),
  `LinkRewriting` (`project-doc-site.ts`), `ArtifactFraming` (`client-build-environment.ts`) and
  `CalendarDates` (`archived-agent-notes.ts`, against section 21.4.1 of ECMA-262).

`Graphs`, `CatalogNames`, `Texts` and `Wrappers` hold what several of these share.

## What the code turns out not to do

Each of these is proved; the lemma or method named gives the input, or the exact condition.

- The type-path lookup can recurse without end: for `type A = A['x']` every round adds a step, so
  the visited set never catches it (`SelfIndexOverflows`). It comes back wherever the steps left along
  reference paths are bounded (`ShortPathsAnswer`), and, where no declaration is reached twice with as
  many steps left, exactly there (`AnswersIffShortPaths`). They are bounded wherever indexed accesses
  do not outnumber members and elements on a cycle of references (`WalkTerminates`), and elsewhere too
  (`IndexedBaseAnswers`).
- Sharing one visited set between branches loses precision, never soundness: when two bases of an
  interface extend the same third one, a provably absent member is reported as unknown
  (`DiamondHidesMiss`). A provable miss is reported exactly when no declaration is reached along two
  reference paths with the same number of steps left (`MissIsReportedIffReachedOnce`).
- A member that exists can be answered unknown although nothing is opaque: when both branches of a
  union inherit it from one interface (`UnionHidesPresence`), or when an index leads back to its own
  declaration with as many steps left, as for an element of `first: Config['items']`
  (`SelfIndexHidesPresence`). Where no union is reached, and no declaration with different steps of
  one number, the lookup finds exactly the paths that exist (`FoundIffPresent`).
- `resolveTypeName` keeps no visited set: two files that import one name from each other, neither
  declaring it, exhaust the stack. It comes back exactly when the chain of imports never returns to
  a file (`ResolvesIffNoRevisit`).
- The manifest loader accepts `latest` as the bundle's own dist-tag. Then `latest` moves before the
  bundle is complete unless the entry package is listed last, and exactly then (`SafetyIsExact`).
- The "missing result" throw of the lint pool happens exactly when no worker is started although
  there are targets, which the configured concurrency rules out (`RunAll`, `RunConfigured`).
- An HTML comment is placed in the document by its position in the node's text, from which the parser
  has removed the indentation or quote markers of continuation lines. In a list item, the last line of
  a two-line comment is kept although nothing but comment is on it (`IndentedCommentShows`). A comment
  is hidden as it stands in the document exactly when every prefix removed up to its end is empty
  (`CommentIsHiddenIffUnprefixed`), and a document's comments all are exactly when that holds of each
  of them (`DocumentIsHiddenIffPlain`).
- The end of a link's label is searched for without regard to code spans: in ``[a `]` b](url)`` the
  bracket inside the code span ends it, and the link, although well formed, is refused
  (`CodeSpanHidesDestination`).
- Dates in years 0000 to 0099 are rejected although they are well formed (`ShortYearNeverReturns`).

## Model

| member | source | states |
|---|---|---|
| `GateGraph.CycleSearch.Visit` | relay-harness/scripts/run-gates.ts:791-808 | a returned list is a cycle of the predecessor graph; otherwise the gate and all it depends on are complete; the search terminates |
| `GateGraph.FindDependencyCycle` | relay-harness/scripts/run-gates.ts:785-815 | returns nothing exactly when the combined graph is acyclic, and otherwise a walk of at least one edge that ends where it began |
| `GateGraph.ValidateGateGraph` | relay-harness/scripts/run-gates.ts:760-783 | accepts exactly the non-empty lists with unique ids, known references and no cycle; each rejection carries true evidence, reports a kind of defect only when the kinds checked before it are absent, and of one kind the first in list order |
| `GateSchedule.AnyStartableFirst` | relay-harness/scripts/run-gates.ts:841-846 | diamond: executing any startable gate before the first one does not change where a one-worker run ends |
| `GateRuns.StepKeepsInvariant` | relay-harness/scripts/run-gates.ts:839-877 | every step keeps: at most `maxActive` gates run, each of them with all needs passed and all predecessors settled, and every recorded result is an execution that was due or a skip that names failed needs |
| `GateRuns.ReachableInvariant` | relay-harness/scripts/run-gates.ts:835-878 | the invariant holds after every legal log |
| `GateRuns.SettledNeverChanges` | relay-harness/scripts/run-gates.ts:839-878 | a state settled at any point of a run is the same ever after |
| `GateRuns.RunsAreShort` | relay-harness/scripts/run-gates.ts:839-878 | no run takes more than two steps per gate |
| `GateRuns.NeverStuckIdle` | relay-harness/scripts/run-gates.ts:850-854 | with nothing running, an unfinished valid graph offers a gate to start or a gate to skip, so the "stalled" throw is unreachable |
| `GateRuns.NoStall` | relay-harness/scripts/run-gates.ts:839-878 | every reachable state of a valid graph is complete or has a next step |
| `GateRuns.StepKeepsDestination` | relay-harness/scripts/run-gates.ts:839-877 | no step changes the results the one-worker run would end with |
| `GateRuns.CompleteRunMatchesReference` | relay-harness/scripts/run-gates.ts:835-884 | every complete run ends with the one-worker results, skip reasons included |
| `GateRuns.Confluence` | relay-harness/scripts/run-gates.ts:825-885 | two complete runs of one gate list and executor, under any two bounds and settlement orders, have the same results |
| `GateRuns.CompleteRunSolvesEquation` | relay-harness/scripts/run-gates.ts:839-878 | in a complete run a gate has its executor's result if all its needs passed and is skipped otherwise |
| `GateRuns.EquationHasOneSolution` | relay-harness/scripts/run-gates.ts:850-869 | on a valid graph that equation determines every status |
| `GateLogs.LegalIffDisciplined` | relay-harness/scripts/run-gates.ts:839-877 | exactly these logs are produced: a gate is started, first in list order, once every need has a passing result and everything it comes after has a result; the scheduler waits only at the bound or when no gate could start; it skips only when idle, the first gate with a lost need, naming its lost needs in order |
| `GateLogs.PreparedIsReady` | relay-harness/scripts/run-gates.ts:887-890 | the readiness the invariant speaks of is that every need has a passing result and everything to wait for has a result |
| `GateLogs.PendingIsWaiting` | relay-harness/scripts/run-gates.ts:833-877 | a gate is pending exactly when the log has not started it and it has no result |
| `GateRunner.StartReady` | relay-harness/scripts/run-gates.ts:841-847 | the inner loop follows the transition system and stops only when full or when nothing is ready |
| `GateRunner.SkipBlocked` | relay-harness/scripts/run-gates.ts:850-869 | the idle branch finishes, or skips the first blocked gate; it never throws |
| `GateRunner.AwaitOne` | relay-harness/scripts/run-gates.ts:871-877 | whichever running gate settles, the step is legal |
| `GateRunner.CollectResults` | relay-harness/scripts/run-gates.ts:880-884 | results in aggregate order, and the "missing result" throw exactly when a gate has none, naming the first |
| `GateRunner.Schedule` | relay-harness/scripts/run-gates.ts:839-878 | the loop ends, without the "stalled" throw, at a complete state reached by a legal log |
| `GateRunner.RunGates` | relay-harness/scripts/run-gates.ts:825-885 | rejects exactly the invalid arguments before any event; otherwise the log is complete and keeps to the rules of `GateLogs.Disciplined`, the results are the one-worker results in aggregate order, and neither internal throw happens |
| `TypePaths.VerdictsExclude` | relay-harness/scripts/gen-config-catalog.ts:309-316 | a derivation that a path exists and one that it does not exclude each other |
| `TypePaths.WalkIsSound` | relay-harness/scripts/gen-config-catalog.ts:317-403 | whatever was visited before, 'found' has a derivation that the path exists and 'missing' one that it does not |
| `TypePaths.WalksNeverContradict` | relay-harness/scripts/gen-config-catalog.ts:317-403 | two lookups of one path with different visited sets never answer 'found' and 'missing' |
| `TypePaths.WrappersAreTransparent` | relay-harness/scripts/gen-config-catalog.ts:390-399 | `Partial`, `Required`, `Readonly` and `NonNullable` stand for their argument, `Array` and `ReadonlyArray` for an array of it, and any other name for what it resolves to |
| `TypePaths.FirstPropertyIsFirst` | relay-harness/scripts/gen-config-catalog.ts:335-343 | of several members of one name the first decides |
| `TypePathTermination.ShortPathsAnswer` | relay-harness/scripts/gen-config-catalog.ts:317-403 | where the steps left along reference paths are bounded, a lookup comes back on some stack, whatever was visited before; no cycle of declarations alone can keep it going |
| `TypePathTermination.AnswersIffShortPaths` | relay-harness/scripts/gen-config-catalog.ts:317-403 | where no declaration is reached along two reference paths with as many steps left, a lookup comes back iff the steps left along reference paths are bounded |
| `TypePathTermination.AnswersIffPathsStayBounded` | relay-harness/scripts/gen-config-catalog.ts:317-403 | the step behind both: a lookup comes back iff the paths its own frames stand before stay bounded |
| `TypePathTermination.ShortPathsFrames` | relay-harness/scripts/gen-config-catalog.ts:317-403 | under a bound on reference paths, an explicit number of frames suffices |
| `TypePathTermination.WalkTerminates` | relay-harness/scripts/gen-config-catalog.ts:317-403 | reference paths are bounded, and so every lookup answers, where on no cycle of references indexed accesses outnumber members and elements |
| `TypePathTermination.IndexedBaseAnswers` | relay-harness/scripts/gen-config-catalog.ts:381-387 | that layering is not necessary: `type A = B['x']` with an interface `B` that extends `A` and declares `x` has no layering, and reference paths of at most two steps |
| `TypePathTermination.SelfReferenceIsLayered` | relay-harness/scripts/gen-config-catalog.ts:381-387 | a member indexed out of its own declaration, `first: Config['items']`, is layered, so looking through it comes back |
| `TypePathTermination.SelfIndexOverflows` | relay-harness/scripts/gen-config-catalog.ts:381-387 | for `type A = A['x']` the paths keep growing: it overflows every stack |
| `TypePathPrecision.MissingIffOnce` | relay-harness/scripts/gen-config-catalog.ts:322-326 | 'missing' is answered iff the path is provably absent and a walk that remembers nothing would enter no declaration twice with as many steps left, nor one visited earlier |
| `TypePathPrecision.ProvableMissIsReportedIffOnce` | relay-harness/scripts/gen-config-catalog.ts:322-326 | a stack as deep as the derivation decides it: such a miss is reported iff everything is entered once, and answered 'unknown' otherwise |
| `TypePathPrecision.MissIsReportedIffReachedOnce` | relay-harness/scripts/gen-config-catalog.ts:317-403 | a fresh lookup reports a provable miss iff no declaration is reached along two reference paths with the same number of steps left |
| `TypePathPrecision.PresenceIsFound` | relay-harness/scripts/gen-config-catalog.ts:317-403 | an existing path is found whenever everything is entered once, across unions too |
| `TypePathPresence.FoundIffPresent` | relay-harness/scripts/gen-config-catalog.ts:317-403 | a fresh lookup that comes back finds a path iff it exists, where no union is reached and declarations reached with as many steps left are reached with the same steps, however often |
| `TypePathPresence.NotFoundIsDead` | relay-harness/scripts/gen-config-catalog.ts:322-326 | there, nothing can be found from any declaration a lookup entered in vain, so marking it loses nothing |
| `TypePathPresence.UnionHidesPresence` | relay-harness/scripts/gen-config-catalog.ts:370-376 | with the hypothesis on steps but a union: a member that both its branches inherit from one interface exists, and is answered 'unknown' on every sufficient stack |
| `TypePathPresence.SelfIndexHidesPresence` | relay-harness/scripts/gen-config-catalog.ts:381-387 | with no union but a path of the same length: an element of `first: Config['items']` exists, and is answered 'unknown' on every sufficient stack |
| `TypePathPrecision.DiamondHidesMiss` | relay-harness/scripts/gen-config-catalog.ts:322-326 | a member absent from a diamond of interfaces is provably absent and yet answered 'unknown' |
| `PathLookup.PathWalk.LookupPath` | relay-harness/scripts/gen-config-catalog.ts:317-403 | the recursion that mutates one visited set computes the threaded walk, and its definite verdicts have derivations |
| `ExportChains.ChosenIsUnique` | relay-harness/scripts/gen-config-catalog.ts:256-278 | first match settles on at most one outcome: a declaration, or an abort at an unreadable file |
| `ExportChains.ForwardProvides` | relay-harness/scripts/gen-config-catalog.ts:263-275 | an export statement sends a name on as it stands if it is a star, and under the source name of the first entry listing it otherwise |
| `ExportChains.ExportSearch.Find` | relay-harness/scripts/gen-config-catalog.ts:256-278 | the search terminates on cyclic re-exports, returns the first match past the requests under way, and leaves everything it gave up on exhausted |
| `ExportChains.FindExportedTypeDecl` | relay-harness/scripts/gen-config-catalog.ts:256-278 | the outcome is what first match settles on: a hit iff the first chain of re-exports to end anywhere ends at that declaration, an abort iff it ends at an unreadable file, a miss iff no chain ends |
| `ExportChains.DeclForTypeName` | relay-harness/scripts/gen-config-catalog.ts:283-304 | own declaration first, then what first match settles on at the import; 'unknown' exactly of external names, packages without a readable entry, and imports from which no chain ends; an unreadable relative import aborts |
| `TypeWorlds.WorldResolvesMeaning` | relay-harness/scripts/gen-config-catalog.ts:283-304 | in the world a lookup walks over, a name resolves to exactly the declaration it means in the files |
| `TypeWorlds.ResolveForLookup` | relay-harness/scripts/gen-config-catalog.ts:355-356 | the search a lookup performs and its world agree whenever no file is unreadable |
| `NameResolution.ResolvesIffNoRevisit` | relay-harness/scripts/gen-config-catalog.ts:146-171 | resolution comes back iff the imports of the name never return to a file, and then one frame per file and one more suffice |
| `NameResolution.MutualImportOverflows` | relay-harness/scripts/gen-config-catalog.ts:155-168 | two files importing one name from each other overflow every stack |
| `NameResolution.ResolvesToEnd` | relay-harness/scripts/gen-config-catalog.ts:146-171 | the answer is what the last file on the chain of imports says: its declaration, the exported name and module of its package import, or nothing for a name not imported, renamed, or imported without `.ts` |
| `NameResolution.PackagePointersIdentify` | relay-harness/scripts/gen-config-catalog.ts:665-673 | so a source pointer tells same-named declarations apart, which the worklist's identity check relies on |
| `PasteClosure.ReachableIsSettled` | relay-harness/scripts/gen-config-catalog.ts:669-715 | once the queue is empty and nothing was violated, every reachable name is pasted or imported with its one identity |
| `PasteClosure.ProcessItem` | relay-harness/scripts/gen-config-catalog.ts:671-715 | the head of the queue is settled, or refused with one violation that says why and nothing else changed; the others stay queued in order; the invariant is kept, and either a new name is pasted or the queue is shorter |
| `PasteClosure.NothingIsLost` | relay-harness/scripts/gen-config-catalog.ts:671-715 | with or without violations: the config type and everything a pasted declaration references is settled, or a violation says what is wrong with it |
| `PasteClosure.CollectPastes` | relay-harness/scripts/gen-config-catalog.ts:665-717 | terminates on cyclic declarations; of the requests of a run, in order, each one not settled in the end has one violation of the right kind, and each name is pasted where it is first met; reports no violation iff the fence is unambiguous; the pastes and imports are disjoint, reachable, and the config type's own declaration is first |
| `NameResolution.CollectPackagePastes` | relay-harness/scripts/gen-config-catalog.ts:665-717 | on the files of a package, given only that a pointer is the place of its declaration: no violation iff the fence is unambiguous, and then every reachable name is settled as the files resolve it |
| `Publication.LatestMovesLast` | relay-harness/scripts/publish-npm-baseline.ts:630-654 | over every history with stops, re-runs and other publishers, once this code has moved the entry package's `latest` the whole bundle is present with its integrity |
| `Publication.ContentIsImmutable` | relay-harness/scripts/publish-npm-baseline.ts:630-654 | no history replaces published content |
| `PublicationRuns.ResumingChangesNothing` | relay-harness/scripts/publish-npm-baseline.ts:630-654 | after any number of stopped runs, a run that completes ends with the registry and outcome of an uninterrupted one |
| `PublicationRuns.RunEndsComplete` | relay-harness/scripts/publish-npm-baseline.ts:630-698 | a run ends, touches nothing outside its bundle, and if it succeeds all of the bundle is published and tagged and `latest` points at it |
| `PublicationRuns.SucceedsIffPublishable` | relay-harness/scripts/publish-npm-baseline.ts:630-698 | a run succeeds exactly when nothing published clashes with the bundle and the entry package has or gets this version |
| `PublicationOutcomes.PublishIsExact` | relay-harness/scripts/publish-npm-baseline.ts:630-654 | an undisturbed run names a package iff it is the first to clash, is refused a tag iff nothing clashes and the entry package neither has nor gets the version, and succeeds otherwise |
| `PublicationOutcomes.VerifyIsExact` | relay-harness/scripts/publish-npm-baseline.ts:657-698 | verifying changes nothing; it succeeds iff the bundle is complete, and else names the first package that is missing, differs or is mistagged, or the entry package's `latest` |
| `PublicationOutcomes.FailureTellsTruth` | relay-harness/scripts/publish-npm-baseline.ts:630-698 | whoever acts in between, a failure is true of the registry it met |
| `PublicationRuns.EarlyLatest` | relay-harness/scripts/publish-npm-baseline.ts:366-387 | a loadable manifest tagged `latest` with the entry package not last moves `latest` onto an incomplete bundle |
| `PublicationRuns.SafetyIsExact` | relay-harness/scripts/publish-npm-baseline.ts:630-654 | `latest` only ever moves onto a complete bundle iff the manifest is not tagged `latest` or lists the entry package last |
| `RegistryPublication.Publisher.Publish` | relay-harness/scripts/publish-npm-baseline.ts:625-654 | with any crash point and any other publishers acting before each operation, the call performs a history of the protocol, throws only what is true of the registry it leaves, and moves `latest` only onto a complete bundle; undisturbed, it ends where the step-by-step run ends |
| `RegistryPublication.Publisher.PublishContent` | relay-harness/scripts/publish-npm-baseline.ts:630-648 | a package is viewed and, when absent, uploaded; a clash, or somebody else's upload in between, is the failure |
| `ShellWords.CopyableCommandRoundTrips` | relay-harness/scripts/publish-npm-baseline.ts:994-1003 | the shell's words of the printed command are the command and its arguments, for all strings |
| `ShellWords.CopyableCommandIsInjective` | relay-harness/scripts/publish-npm-baseline.ts:994-996 | two different commands are never printed alike |
| `ShellWords.CommandGrows` | relay-harness/scripts/publish-npm-baseline.ts:994-996 | the words are printed in order with exactly one space between them |
| `ShellWords.PrintedPlainOrQuoted` | relay-harness/scripts/publish-npm-baseline.ts:998-1003 | a word of letters, digits and `_./:@=+-` is printed as it is, any other one quoted |
| `ShellWords.EscapesEachQuote` | relay-harness/scripts/publish-npm-baseline.ts:998-1003 | inside the quotes, each single quote is printed as quote, double-quoted quote, quote, and the rest as it is |
| `PackageLayers.DepthIsUnique` | relay-harness/scripts/package-graph.ts:63-74 | a package has one longest-dependency depth |
| `PackageLayers.ComparesAsOrdered` | relay-harness/scripts/package-graph.ts:77-83 | the comparison orders by which group is listed first, a listed one before an unlisted one, unlisted ones by name, and within a group by short name |
| `PackageLayers.DependenciesFirst` | relay-harness/scripts/package-graph.ts:63-74 | in a layered arrangement every dependency precedes its dependents |
| `PackageLayers.LayeredIsUnique` | relay-harness/scripts/package-graph.ts:63-83 | the layered arrangement of given packages is unique |
| `PackageLayers.RemainingAreStuck` | relay-harness/scripts/package-graph.ts:63-67 | when no package is ready, those remaining are the largest such set |
| `PackageLayers.TopoSort` | relay-harness/scripts/package-graph.ts:59-75 | the last package of each name is sorted; succeeds iff dependencies are closed and acyclic, with a permutation layered by depth and, within one depth, the caller's order; otherwise names exactly the largest set of packages that block each other |
| `PackageLayers.OrderIndependent` | relay-harness/scripts/package-graph.ts:59-83 | the result does not depend on the order the packages were given in |
| `ReferenceFaces.FaceIsNearestNamed` | relay-harness/scripts/project-reference-faces.ts:88-103 | the face found along `extends` is that of the nearest config whose name fixes one, on cyclic chains too |
| `ReferenceFaces.CheckReferences` | relay-harness/scripts/project-reference-faces.ts:38-59 | good references are followed; each bad one is reported as often as it is listed, with the source's face, and nothing else |
| `ReferenceFaces.SweepDecidesIsolation` | relay-harness/scripts/project-reference-faces.ts:33-60 | not descending through bad edges loses no verdict |
| `ReferenceFaces.CollectViolations` | relay-harness/scripts/project-reference-faces.ts:30-63 | the violations are, with their multiplicities, the bad edges out of configs reachable along good ones, each with the face of its source; there are none iff every reachable edge into a split project names the leaf of the source's face |
| `WorkerPool.Pool.Resume` | relay-harness/scripts/publint-all.ts:208-214 | a settled lint fills its own slot, and its worker claims the next target or returns; the log of starts and settlements stays orderly and bounded |
| `WorkerPool.RunAll` | relay-harness/scripts/publint-all.ts:204-222 | for every interleaving: each target's lint is started once, in claim order, and settles once, afterwards; at no moment are more than `concurrency` in flight; every slot holds its own target's result; the throw happens iff no worker was started for some target |
| `WorkerPool.PublintConcurrency` | relay-harness/scripts/publint-all.ts:62-75 | the error exactly for an unacceptable override; otherwise the smaller of what is asked for and what there is to do |
| `WorkerPool.RunConfigured` | relay-harness/scripts/publint-all.ts:62-75 | the configuration error exactly for a malformed or non-positive override, and otherwise a result for every target |
| `JsDocProse.TakenAddsWords` | relay-harness/scripts/jsdoc.ts:67-77 | a line's words are added, once and last |
| `JsDocProse.FlushedLinesAreLaidOut` | relay-harness/scripts/jsdoc.ts:60-79 | flushed after the last line, the blocks are those the text's blank lines and bullets lay out, each paragraph and each item on one line |
| `JsDocProse.JoinIsOneLine` | relay-harness/scripts/jsdoc.ts:45 | a paragraph or item is the words of its lines with exactly one space between neighbours and no other white space |
| `JsDocProse.SpacedReadsBack` | relay-harness/scripts/jsdoc.ts:45 | from such a line its words can be read back |
| `JsDocProse.JoinWithConcat` | relay-harness/scripts/jsdoc.ts:52-79 | what joins two lists of parts stands once between them |
| `JsDocProse.TagIsAt` | relay-harness/scripts/jsdoc.ts:61-65 | a tag line is one whose first visible character is an `@` |
| `JsDocProse.BulletIsHyphenAndSpace` | relay-harness/scripts/jsdoc.ts:68 | an item opens with a hyphen, white space, and anything |
| `JsDocProse.LayoutKeepsWords` | relay-harness/scripts/jsdoc.ts:60-79 | a layout holds exactly the words of the text, in order |
| `JsDocProse.ProseMachine.TakeLine` | relay-harness/scripts/jsdoc.ts:67-77 | one line of prose moves the machine as specified |
| `JsDocProse.ParseProse` | relay-harness/scripts/jsdoc.ts:60-79 | the blocks are the layout of the lines before the first tag, separated by blank lines, and their words are those lines' words in order |
| `CommentSweep.LineRanges` | relay-harness/scripts/markdown.ts:123-139 | a line has ranges iff a comment touches it, and they hide the same characters as the comments do |
| `CommentSweep.HasRenderedText` | relay-harness/scripts/markdown.ts:143-153 | true iff no comment touches the line or some visible character is outside all ranges |
| `CommentSweep.MarkdownProseLines` | relay-harness/scripts/markdown.ts:160-176 | keeps a line iff it is outside code blocks and no comment touches it or a visible character is outside every comment of the document |
| `HtmlComments.CommentsIn` | relay-harness/scripts/markdown.ts:112-120 | the comments of a node's text: each from an opening mark to the first closing one or the end, in order, apart, and none missed |
| `HtmlComments.CommentsAreUnique` | relay-harness/scripts/markdown.ts:112-120 | a text has one such list |
| `HtmlComments.CommentIsHiddenIffUnprefixed` | relay-harness/scripts/markdown.ts:114-119 | the interval computed for a comment hides exactly the comment's own characters, as they stand in the document, iff every prefix removed from the node's lines up to the comment's end is empty |
| `HtmlComments.NodeIsHiddenIffPlain` | relay-harness/scripts/markdown.ts:112-120 | so all that is computed for a node is what stands in the document iff no comment of it reaches into or behind a line with a removed prefix |
| `HtmlComments.DocumentIsHiddenIffPlain` | relay-harness/scripts/markdown.ts:108-121 | and the same for all nodes of a document, none overlapping another |
| `HtmlComments.DocumentComments` | relay-harness/scripts/markdown.ts:108-121 | the intervals of all nodes hide exactly what is computed for some node; where every node is plain, exactly the characters of comments as they stand in the document |
| `HtmlComments.DocumentProseLines` | relay-harness/scripts/markdown.ts:160-176 | a line of the source outside code blocks is kept iff nothing computed reaches into it or a visible character of it is not hidden; where every node is plain, iff no comment as it stands in the document reaches into it or a visible character lies outside them all |
| `HtmlComments.IndentedCommentShows` | relay-harness/scripts/markdown.ts:114-119 | the input on which they differ: a line of a list item that is nothing but comment is kept |
| `LinkRewriting.ApplyReplacements` | relay-harness/scripts/project-doc-site.ts:284-288 | splicing from the last to the first equals substituting all at once, in ascending order |
| `LinkRewriting.VisitOrderIsIrrelevant` | relay-harness/scripts/project-doc-site.ts:284-288 | the order in which links were visited does not show |
| `LinkRewriting.LabelEnd` | relay-harness/scripts/project-doc-site.ts:83-99 | the first unescaped bracket that balances the first one, or -1 exactly when there is none |
| `LinkRewriting.CodeSpanHidesDestination` | relay-harness/scripts/project-doc-site.ts:83-99 | a bracket inside a code span ends the label, and then no destination is found |
| `LinkRewriting.DestinationStart` | relay-harness/scripts/project-doc-site.ts:101-119 | behind the separator and its white space, or an error exactly when the node has no such place |
| `LinkRewriting.AngledDestination` | relay-harness/scripts/project-doc-site.ts:121-127 | ends at the first unescaped closing bracket, or an error exactly when there is none |
| `LinkRewriting.BareDestination` | relay-harness/scripts/project-doc-site.ts:129-144 | ends at the first unescaped white space or closing parenthesis at level zero, so with balanced parentheses, or at the node's end |
| `LinkRewriting.FindDestination` | relay-harness/scripts/project-doc-site.ts:101-144 | returns the destination, and throws exactly when there is none |
| `LinkRewriting.DestinationIsUnique` | relay-harness/scripts/project-doc-site.ts:101-144 | a node has at most one destination, and it lies inside the node |
| `ArtifactFraming.FeedDigest` | relay-harness/scripts/client-build-environment.ts:254-261 | the updates of the digest add up to the framed stream |
| `ArtifactFraming.StreamReadsBack` | relay-harness/scripts/client-build-environment.ts:254-261 | the stream decodes to exactly the artifacts it was made from |
| `ArtifactFraming.StreamIsInjective` | relay-harness/scripts/client-build-environment.ts:254-261 | two artifact lists feed the digest the same bytes iff they are equal |
| `ArtifactFraming.FramedAsText` | relay-harness/scripts/client-build-environment.ts:254-261 | a path `a` with content `bc` is fed as `1:a2:bc` |
| `CalendarDates.DateRoundTrips` | relay-harness/scripts/archived-agent-notes.ts:76-77 | a calendar date survives the conversion to a day number and back |
| `CalendarDates.ShortYearNeverReturns` | relay-harness/scripts/archived-agent-notes.ts:76-77 | a two-digit year is remapped and never comes back, so it is rejected |
| `CalendarDates.ValidDateIsCalendarDate` | relay-harness/scripts/archived-agent-notes.ts:70-78 | accepts exactly the well-formed texts whose fields are a date of the calendar in years 0100 to 9999 |
| `CalendarDates.ValidDateIsWrittenDate` | relay-harness/scripts/archived-agent-notes.ts:70-78 | that is, exactly the dates from 0100-01-01 to 9999-12-31, with the twelve month lengths and the leap rule spelled out, as written with four, two and two digits |

## Left out

- TypePathTermination.WalkTerminates: layering is a condition on the declarations alone, and sufficient only.
- TypePathTermination.ShortPathsAnswer: one way; the converse, AnswersIffShortPaths, is for declarations reached once. Where some are reached again a visited one can stop a growing path, and the exact condition stated, AnswersIffPathsStayBounded, is about the walk's own frames.
- TypePathPresence.FoundIffPresent: exact within its two hypotheses; beyond them PresenceIsFound is one way, and whether a path is found depends on the order of the branches.
- PublicationRuns.SucceedsIffPublishable: assumes that tags point at published versions, which the registry maintains.
- PasteClosure.CollectPastes: over an arbitrary resolution, the equivalence needs that a pointer tells same-named declarations apart, which CollectPackagePastes discharges for files; the missing-documentation violations, and the extra violations resolveTypeName records for a specifier without `.ts` or a renaming import, are not modelled.
- NameResolution.CollectPackagePastes: a name whose resolution does not come back, or meets an unreadable file, counts as unresolved, where the generator aborts.
- ReferenceFaces.CollectViolations: what the path helpers compute (the face fixed by a name, the split project containing a path, the leaf of a face) is taken as arbitrary functions; the final sort of the messages is not modelled.
- GateRunner.RunGates: an executor promise that rejects, durations, console output and the observer callback.
- PackageLayers.TopoSort: the engine's sort is modelled as insertion sort, and collation as an arbitrary strict total order; group lists are as long as an array can be; the order of names in the error is not stated.
- ShellWords.CopyableCommandRoundTrips: covers words, not what a shell makes of a first word that is a reserved word, an alias or an assignment.
- JsDocProse.ParseProse: comment delimiters are already stripped; `@mode` values, `{@link}` unwrapping with the trim after it, and `parseTags` are not modelled.
- CommentSweep.MarkdownProseLines: comments are given as intervals, which HtmlComments finds; which nodes are HTML or code, and which prefixes a node's lines lose, is the parser's answer.
- LinkRewriting.ApplyReplacements: which links are rewritten to what is left out; disjoint in-bounds ranges are what the parser's nodes provide.
- ArtifactFraming.StreamIsInjective: path encoding and the hash function itself.
- Publication: each registry operation happens atomically; the rule that a first publish also sets `latest`, and anything else the registry does of its own accord, is covered only as somebody else's change; pings, identity and confirmation prompts.
- WorkerPool: a lint that throws is a result like any other, as the source catches it.
- The archive manifest, internal dependency pins and their staging, the client environment functions, `parsePath`, `foldComposed` and the schema walk, and every static table and renderer: they would add only easier members.
- The TypeScript and Markdown parsers, file access, child processes and git.
