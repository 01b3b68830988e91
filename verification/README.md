# CorpusStudio in Dafny

A model of the algorithmic kernels of CorpusStudio, with proofs of what they promise. Everything else in
the repository is command-line, I/O and framework glue around these:

| file | kernel |
|---|---|
| `ImportGraph`, `ImportClosure`, `ModuleNames`, `WorkerReachability`, `ReachabilityImpact`, `OrderIndependence` | the worker's import closure, in the code's stack order and in any other, the base/candidate comparison, and when the order can matter |
| `Redaction`, `RowLeaves`, `RedactionReport` | private-key spans over a whole row, the two-pointer mapping onto leaves, the rebuilt row, the counts |
| `JsonText`, `CanonicalJson`, `ChangeSets` | canonical JSON and its reader, digests, path states, change sets, fingerprints, sealed records |
| `VersionStore`, `DatasetMutation` | the undo-first commands over the live dataset, the row store and the version records |
| `Cleaning`, `RowSignatures` | the deduplicating and low-information pass, the signatures it compares, and which rows it can lose |
| `Obligations` | policy parsing, the union with the trusted base, glob matching, the no-weakening chain |
| `Amendments`, `SharedDocuments`, `IdentityRegistry` | manifests applied to a document and undone; the same on shared objects; the append-only registry of reserved identities |
| `Expressions`, `ExpressionMeaning`, `Lexicon`, `QuotedTexts` | the template expression evaluator, the trees whose text it evaluates, and which quoted texts it can read |
| `Strings`, `Wrappers` | splitting, joining, code-point order, sorting; options and results |

`dafny verify dfyconfig.toml` checks the project.

Code written as loops over local variables is a method with a loop, proved equal to a specification
function; objects whose methods update fields (`Project`, `Document`, `WorkspaceSourceView`, the shared
mask iterator) are classes. Beside the specification functions stand lemmas that say what they give in the
data's own terms, without naming the function (`ReachIff`, `RecordIs`, `EntryIff`, `LeavesLocated`). SHA-256 is a function parameter; where a property needs it, `CollisionFree`
takes it to be injective. Detector matches, Unicode folding, wildcard matching, text signatures, script
values and what the file system holds are parameters too.

## What turned out conditional or false

- **Impact completeness** holds for every pair of views exactly when each changed `x/__init__.py` root has
  its shadowing twin `x.py` in the change list or among the roots (`ImpactCompleteIff`). Otherwise adding the
  package file starts a walk that lands on an unchanged plain module, and the impact set stays empty although
  the reachable sets differ.
- **Order independence** holds on every source tree whose dynamic imports use permitted string literals exactly
  when each literal is calm: outside the top package, or neither it nor a package enclosing it has a `/` in its
  name and nonempty segments throughout (`OrderIndependentIff`). Otherwise one file is reached under two names with
  different anchor packages, and two complete walks of one view end with different sets (`SlashMatters`). For one
  view it is enough that no slashed name reaches a file of it (`SlashFree`): so `RunKeeps`, `AnyOrder` and the last
  two clauses of `ReachableFrom`.
- **A representative for every removed row** exists, with only deduplication on, exactly when the signatures
  are coherent (`RepresentedIff`). The code's own are not: the exact signature sorts the keys of every object, the
  normalized one those of the row, and the text of a nested object is read in the order of its keys. A row can be
  lost exactly when its normalized signature changes as keys inside it change places (`CanLoseIff`): after
  `{"m":"x y"}` and `{"m":{"a":"x","b":"y"}}` the row `{"m":{"b":"y","a":"x"}}` is dropped although no row that
  stays has either of its signatures (`ThirdRowLost`). Among rows whose nested objects keep their keys in ascending
  order none is lost (`TidyRowsRepresented`); the order of a row's own keys does not matter.
- **Amendments** can be undone exactly when no edit filled an absent field under a null old value and none
  renamed the item it selects (`InvertibleIff`). Values are compared as Python compares them.
- **Aliases.** The base matrix is YAML, where an alias makes two places one object and the deep copy keeps it one.
  The edits of an item stay in their place exactly when no other path leads to the item (`EditsStayIff`); on the base
  `a: &x [{id: i, f: 1}]`, `b: *x` a change of `a/i/f` also changes `b`, which the manifest never mentions
  (`AliasChangesBoth`). On a base without aliases, as the committed one, the objects and the values of `Amendments`
  agree (`TreeEffective`), so its theorems hold there.
- **A clean checkout** yields an empty change set under all four settings, except that collection refuses when
  a real link is listed whose target is not UTF-8 (`CleanCheckoutIff`).
- **Path reuse** is recognized only under one root (`ReusedUnderSameRoot`). An accepted path overlaps no
  reserved one, component by component, exactly when the registry mirrors each of its paths under both `/` and
  `//` (`PathsDisjointIff`). A reserved `/x/y` alone does not stop `//x/y` (`DoubledRootAccepted`).
- **Equality in expressions** groups to the right: `a == b == c` is `a == (b == c)`, unlike the script operator.
- **Quoted text** is scanned like the rest. Every tree over a set of quoted texts is read as its value exactly
  when each text's parentheses and square brackets balance and its operators hide inside brackets
  (`QuotedTextsIff`); `"(a)" == x` is read correctly, `"(" == "x"` is not (`BracketInQuotesHidesOperator`).
- **Policy version**: `schema_version` is compared with `1` by Python equality, so `true` passes. The message
  says `**` is supported only as a trailing `/**`; the code accepts an inner one too when the glob ends so
  (`VersionTruePasses`, `InnerDoubleStarPasses`).

## Model

| member | source | states |
|---|---|---|
| ModuleNames.PackageRoundTrip | scripts/assurance/worker_reachability.py:72-96 | the file a package resolves to maps back to that package |
| ModuleNames.ModuleRoundTrip | scripts/assurance/worker_reachability.py:72-96 | the file a plain module resolves to maps back to it, or to the enclosing package when the module is called `__init__` |
| ModuleNames.TwoNames | scripts/assurance/worker_reachability.py:84-96 | `a.b` and `a.b.__init__` name one file and start relative imports from the same package |
| ModuleNames.RelativeImport | scripts/assurance/worker_reachability.py:107-121 | a relative import resolves to the enclosing package its dots ask for plus the name after them; it escapes exactly when there are more dots than packages |
| ImportGraph.ImportTargets | scripts/assurance/worker_reachability.py:124-164 | the loop over import nodes collects exactly the names under the top package some node asks for: `import n`, `from a import n` with `a` and `a.n`, the same after climbing the dots, a literal dynamic import; and one record for each climb to no package and each non-literal dynamic import |
| ImportGraph.AnchorOfPath | scripts/assurance/worker_reachability.py:107-118 | whatever slash-free dotted name a file was reached by, relative imports in it start from the package its path gives |
| ImportGraph.SlashedNameSplitsAnchor | scripts/assurance/worker_reachability.py:84-118 | a name with a slash denotes the same file under a different anchor |
| ImportGraph.DragsAllSplit | scripts/assurance/worker_reachability.py:99-104 | what a set of targets executes is what each target and its ancestor packages execute |
| ImportGraph.ReachIsLeast | scripts/assurance/worker_reachability.py:184-239 | there is a least set closed under present roots, imports and ancestor packages, and `Reach` is it |
| ImportGraph.PathTargetsMiss | scripts/assurance/worker_reachability.py:107-164 | when no import reaches a file by a slashed name, nothing a target executes does |
| ImportClosure.ReachIff | scripts/assurance/worker_reachability.py:184-239 | a file is reached if and only if a chain of imports leads to it from a present root, each link spelled out from the statement, the importing file's directories and the two paths a dotted name can denote |
| ImportClosure.StatementFollowed | scripts/assurance/worker_reachability.py:136-164 | statement by statement, in full: the file denoted by a name that a reached file imports, and the files of the packages around that name, are reached |
| ImportClosure.ReachFollows | scripts/assurance/worker_reachability.py:217-230 | what a reached file imports is reached |
| ImportClosure.ReachedGaps | scripts/assurance/worker_reachability.py:141-163 | in a reached file a statement blocks the graph exactly where it climbs to no package or imports no literal |
| ImportClosure.DirectoriesAnchor | scripts/assurance/worker_reachability.py:107-119 | the directories of a source file's path are the package its relative imports start from |
| WorkerReachability.ExpandKeeps | scripts/assurance/worker_reachability.py:217-230 | expanding any pending frame keeps: nothing seen outside the least set, and everything expanded has its imports seen |
| WorkerReachability.RunKeeps | scripts/assurance/worker_reachability.py:184-239 | that invariant holds in every state of every run, whatever order frames are taken in |
| WorkerReachability.AnyOrder | scripts/assurance/worker_reachability.py:184-191 | every run that empties the worklist ends with the same set, the least closed one, whichever name first reached each file |
| WorkerReachability.EnqueueName | scripts/assurance/worker_reachability.py:201-208 | a resolved unseen file is marked seen and pushed once; anything else changes nothing |
| WorkerReachability.Enqueue | scripts/assurance/worker_reachability.py:197-208 | a module and all its ancestor packages are queued, each new file under one resolving name |
| WorkerReachability.EnqueueRoots | scripts/assurance/worker_reachability.py:210-215 | the walk starts from the present roots, or refuses a root that is no module |
| WorkerReachability.ExpandTop | scripts/assurance/worker_reachability.py:217-230 | one pop expands exactly the top file, reports its gaps, and either sees something new or shortens the stack |
| WorkerReachability.ProgressKept | scripts/assurance/worker_reachability.py:217-230 | one iteration keeps the whole bookkeeping: expanded files are distinct and are those seen but not waiting, the reported lists match them |
| WorkerReachability.ReachableFrom | scripts/assurance/worker_reachability.py:184-239 | it terminates, expands no file twice, and, unless a slashed name reaches a file of the view, lists in ascending order exactly the files a chain of imports leads to from a present root, those of them that do not parse, and the blocked statements in them |
| OrderIndependence.FilesAreWhole | scripts/assurance/worker_reachability.py:84-96 | a dotted or slashed name that denotes a file of a source tree has nonempty segments |
| OrderIndependence.CalmIsOrderIndependent | scripts/assurance/worker_reachability.py:184-239 | calm literals make the walk of every source tree order-independent |
| OrderIndependence.TwoClimbs | scripts/assurance/worker_reachability.py:107-121 | one relative import in one file means two different packages under the file's two names |
| OrderIndependence.SlashMatters | scripts/assurance/worker_reachability.py:184-239 | for any literal that executes a slashed name of the top package there is one view with two complete walks that end with different sets |
| OrderIndependence.OrderIndependentIff | scripts/assurance/worker_reachability.py:184-191 | over all roots and all source trees with permitted literals, the walk is order-independent if and only if every permitted literal is calm |
| ReachabilityImpact.SameDrags | scripts/assurance/worker_reachability.py:84-104 | a name that drags only unchanged files in both views drags the same files, shadowing included |
| ReachabilityImpact.ReachStays | scripts/assurance/worker_reachability.py:255-274 | with no changed file reachable on either side, what one side reaches the other reaches too |
| ReachabilityImpact.ImpactComplete | scripts/assurance/worker_reachability.py:255-274 | an empty impact set proves the two reachable sets equal when package twins are watched |
| ReachabilityImpact.UnwatchedTwinMissed | scripts/assurance/worker_reachability.py:88-96 | for an unwatched twin there are two views with an empty impact set and different reachable sets |
| ReachabilityImpact.ImpactCompleteIff | scripts/assurance/worker_reachability.py:255-274 | impact completeness over all views holds if and only if twins are watched |
| ReachabilityImpact.RootReached | scripts/assurance/worker_reachability.py:210-215 | a present root is reached, unless a plain module shadows its package |
| ReachabilityImpact.AnalyzeTwoSided | scripts/assurance/worker_reachability.py:255-274 | both records are those of the two walks; a file is added, removed, undeclared or impacting just when a chain of imports leads to it in the view or views that word asks for; no impacting path means equal reachable lists |
| Redaction.RFind | engine/corpus_studio/exporters/redaction.py:94-95 | the last occurrence inside the window, if there is any |
| Redaction.SpanOf | engine/corpus_studio/exporters/redaction.py:92-96 | a bare END marker reaches back to the nearest earlier placeholder after the previous match, else to that match's end |
| Redaction.SpansBackTo | engine/corpus_studio/exporters/redaction.py:74-98 | one span per match, each covering its match, sorted and non-overlapping |
| Redaction.PrivateKeySpans | engine/corpus_studio/exporters/redaction.py:74-98 | the same with the shipped marker and placeholder |
| Redaction.MaskSpan | engine/corpus_studio/exporters/redaction.py:107-110 | the character-by-character form turns one span into one placeholder and keeps what precedes it |
| Redaction.MaskPrivateKeySpans | engine/corpus_studio/exporters/redaction.py:101-112 | masking outputs exactly the uncovered characters and one placeholder per span |
| Redaction.JoinedAt | engine/corpus_studio/exporters/redaction.py:115-120 | a leaf's characters are the joined text's from the leaf's offset on |
| Redaction.ClipExact | engine/corpus_studio/exporters/redaction.py:126-136 | clipping every span to a leaf gives tidy segments that hold a position just when a span does |
| Redaction.MaskLeaf | engine/corpus_studio/exporters/redaction.py:163-181 | masking a leaf by its own segments is masking it by the spans of the joined text |
| Redaction.SweepSpan | engine/corpus_studio/exporters/redaction.py:129-136 | the inner loop adds to every leaf exactly what one span covers of it, leaving the others alone |
| Redaction.LeafSegments | engine/corpus_studio/exporters/redaction.py:115-137 | the two-pointer sweep equals clipping span by span, in at most 2·leaves + spans inner iterations |
| Redaction.SegmentsExact | engine/corpus_studio/exporters/redaction.py:115-137 | a leaf's segments are sorted, disjoint, in bounds, and hold position p iff offset + p lies in a span |
| Redaction.ShapeAndLeaves | engine/corpus_studio/exporters/redaction.py:140-160 | a value is determined by its containers and its leaves, so the two clauses about the rebuilt row fix it |
| Redaction.ReplaceLeaves | engine/corpus_studio/exporters/redaction.py:140-160 | the rebuilt value has the same shape and the iterator is consumed exactly once per leaf, in order; a text leaf becomes its mask, if it has one, unless it is a role word under `role`, and every other leaf stays |
| Redaction.ReplaceFields | engine/corpus_studio/exporters/redaction.py:149-150 | the same for an object's fields, each under its key |
| Redaction.ReplaceItems | engine/corpus_studio/exporters/redaction.py:151-152 | the same for a list's items, under no key |
| Redaction.MaskIterator.Next | engine/corpus_studio/exporters/redaction.py:155 | one mask taken, the position moved by one |
| Redaction.MaskedLeaves | engine/corpus_studio/exporters/redaction.py:177-180 | a leaf gets a mask for the spans over it, or none when no span reaches it |
| Redaction.RedactRowPrivateKeys | engine/corpus_studio/exporters/redaction.py:163-181 | the row keeps its shape; each text leaf except a role word under `role` becomes its text masked by the spans of the joined text, every other leaf stays; the tally is the number of matches |
| RowLeaves.LeavesLocated | engine/corpus_studio/exporters/redaction.py:140-176 | the leaves are the scalars of the row in container order, each at its path and under the key of the field that holds it, none left out |
| RowLeaves.CollectedAre | engine/corpus_studio/exporters/redaction.py:172-173 | the scanned text has one piece for each leaf: its text, or how the scalar is shown |
| RedactionReport.AddTally | engine/corpus_studio/exporters/redaction.py:267-271 | one row's counts are added kind by kind and to the total, which stays the sum over kinds |
| RedactionReport.BumpTotal | engine/corpus_studio/exporters/redaction.py:269-271 | raising one kind raises the sum over kinds by as much |
| RedactionReport.AffectedAre | engine/corpus_studio/exporters/redaction.py:267-268 | the affected row numbers are ascending and are exactly the rows in which something matched |
| RedactionReport.ListedIs | engine/corpus_studio/exporters/redaction.py:276-278 | the kinds are listed once each, in ascending order, with their counts |
| RedactionReport.RedactRow | engine/corpus_studio/exporters/redaction.py:260-266 | private keys are masked over the whole row before the other kinds; a row that is no object passes unchanged |
| RedactionReport.RedactRows | engine/corpus_studio/exporters/redaction.py:252-281 | every row is redacted; the report conserves counts (total = sum over rows = sum over kinds) and lists the first fifty affected row numbers |
| JsonText.StringRoundTrip | scripts/assurance/canonical_json.py:65-74 | every string, escaped as section 7 of RFC 8259 asks, reads back |
| JsonText.IntRoundTrip | scripts/assurance/canonical_json.py:65-74 | every integer reads back from its decimal text |
| JsonText.ValueRoundTrip | scripts/assurance/canonical_json.py:65-74 | every value's text, followed by anything that does not extend a number, reads back as the value and that rest |
| JsonText.RoundTrip | scripts/assurance/canonical_json.py:65-74 | parse(print(v)) = v for every JSON value |
| JsonText.PrintInjective | scripts/assurance/canonical_json.py:65-74 | equal texts mean equal values |
| JsonText.PrintedObject | scripts/assurance/canonical_json.py:68-74 | an object's text is its fields in ascending order of their keys, with no white space |
| JsonText.PrintedArray | scripts/assurance/canonical_json.py:68-74 | an array's text is its items' texts in order |
| JsonText.PrintedScalars | scripts/assurance/canonical_json.py:68-74 | `null`, `true`, `false`, and integers digit by digit |
| JsonText.PrintedChars | scripts/assurance/canonical_json.py:68-74 | which characters are escaped, and how; all others stand for themselves |
| CanonicalJson.RejectIff | scripts/assurance/canonical_json.py:40-62 | a payload is accepted exactly when it holds no float, no foreign type and no non-string key anywhere |
| CanonicalJson.RejectPoints | scripts/assurance/canonical_json.py:40-62 | a refusal names the path, from `$` down, of something that is refused there |
| CanonicalJson.AlikeIff | scripts/assurance/canonical_json.py:65-74 | two native payloads denote one JSON value exactly when they agree up to key order and tuple/list |
| CanonicalJson.CanonicalIff | scripts/assurance/canonical_json.py:65-74 | accepted payloads have equal canonical text iff they are alike, and the text parses back |
| CanonicalJson.DumpsMean | scripts/assurance/canonical_json.py:65-74 | the canonical text of a payload parses to a value that says the same, case by case |
| CanonicalJson.NumericKeyCollides | scripts/assurance/canonical_json.py:52-55 | without the refusal a number and its decimal text would print as one key although the payloads differ |
| CanonicalJson.WordKeyCollides | scripts/assurance/canonical_json.py:52-55 | so would a truth value or a null key and its word |
| CanonicalJson.DigestInjective | scripts/assurance/canonical_json.py:82-84 | equal prefixed digests mean equal values, for a collision-free hash |
| ChangeSets.WorkspaceSourceView.constructor | scripts/assurance/source_views.py:126-128 | a fresh view has read no setting |
| ChangeSets.WorkspaceSourceView.ConfigBool | scripts/assurance/source_views.py:212-220 | each setting is read once, with git's default, and stays what it was |
| ChangeSets.WorkspaceSourceView.State | scripts/assurance/source_views.py:130-166 | the state at a path is that of the specification whatever settings were cached before, and only the two settings it needs are read |
| ChangeSets.TreeIs | scripts/assurance/source_views.py:91-107 | what a git tree says of a path, entry by entry |
| ChangeSets.WorkspaceIs | scripts/assurance/source_views.py:130-210 | what the working tree says of a path, for each kind of file, both settings and every staged mode |
| ChangeSets.OwnerExecutableIff | scripts/assurance/source_views.py:188-192 | the owner's execute bit, and no other bit of the mode, decides |
| ChangeSets.CollectChangeSet | scripts/assurance/records.py:146-161 | the loop collects the differing listed paths in order with their fingerprint, or stops at the first view error |
| ChangeSets.ChangesExact | scripts/assurance/records.py:146-161 | every change states both sides truly, and every listed path that differs has its change |
| ChangeSets.ChangedExactly | scripts/assurance/records.py:154-159 | the changes name, in ascending order, exactly the listed paths whose two states differ |
| ChangeSets.ExactPatch | scripts/assurance/records.py:146-161 | laid over the base view, a complete listing's change set is the candidate view |
| ChangeSets.CleanFile | scripts/assurance/source_views.py:168-210 | a regular file of a clean checkout has the tree's state under all four settings |
| ChangeSets.CleanLink | scripts/assurance/source_views.py:139-148 | so has a link, unless a real link's target does not decode |
| ChangeSets.CleanCheckoutIff | scripts/assurance/source_views.py:79-210 | a clean checkout has an empty change set under all four settings just when the real links listed decode; else collection refuses |
| ChangeSets.StateRecordInjective | scripts/assurance/source_views.py:69-76 | a path state is recovered from its record, absent fields included |
| ChangeSets.ChangeReads | scripts/assurance/fingerprint.py:23-31 | read field by field, a changed-path record has the path, the base state under `base` and the candidate state under `candidate`, null where absent |
| ChangeSets.ChangeRecordInjective | scripts/assurance/fingerprint.py:23-31 | so is a changed path with both its sides |
| ChangeSets.FingerprintInjective | scripts/assurance/fingerprint.py:34-41 | equal fingerprints mean the same scope, base commit and per-path states |
| ChangeSets.FingerprintReads | scripts/assurance/fingerprint.py:34-41 | the fingerprint is the digest of the object with the scope, the base commit and one record for each change, in order |
| ChangeSets.SealedVerifies | scripts/assurance/records.py:69-87 | a sealed record verifies |
| ChangeSets.DigestBindsRecord | scripts/assurance/records.py:82-87 | no other content verifies under a record's digest |
| ChangeSets.PayloadInjective | scripts/assurance/records.py:197-217 | a payload determines scope, base, pinned candidate tree, view labels and every change |
| ChangeSets.BuildChangeSetRecord | scripts/assurance/records.py:164-218 | an emitted record verifies, and read field by field says what the first snapshot saw: scope, base, labels, pinned candidate tree, count, and for every differing path what it was in the base under `base` and what it is in the candidate under `candidate`; every refusal has its cause |
| ChangeSets.RecordIs | scripts/assurance/records.py:197-218 | the same reading of the envelope and payload, for any snapshot |
| ChangeSets.BothPassesSawTheSame | scripts/assurance/records.py:164-195 | over one base and complete listings, two agreeing passes saw one candidate view, and the record patches to it |
| VersionStore.FingerprintInjective | engine/corpus_studio/versions/version_registry.py:143-173 | the order-sensitive fingerprint determines the rows |
| VersionStore.ReconstructAndVerify | engine/corpus_studio/versions/version_restore.py:39-79 | rows are rebuilt in manifest order with all missing ids named, and match exactly when the streamed digest is the recorded one |
| VersionStore.ReconstructIff | engine/corpus_studio/versions/version_restore.py:82-121 | a version reconstructs to given rows if and only if its record claims stored rows, each manifest id is first stored with the row in its place, and the digest of those rows is the recorded one |
| VersionStore.LookupIff | engine/corpus_studio/versions/row_store.py:186-205 | the row found for an id is the first one stored under it; none is found when none is stored |
| VersionStore.KeptAre | engine/corpus_studio/versions/gc.py:192-210 | collection keeps, in order, exactly the entries that are unclassifiable or referenced |
| VersionStore.StepKeepsVersion | engine/corpus_studio/versions/row_store.py:186-205 | appending, capturing, replacing the dataset and collecting keep a version that verifies, rows and all |
| VersionStore.RunKeepsVersion | engine/corpus_studio/cli.py:8139-8146 | so does any run of such steps |
| VersionStore.UndoSurvives | engine/corpus_studio/cli.py:3712-3780 | an undo id of a committed mutation of a non-empty dataset reconstructs, for the rest of any run, exactly the rows that were live before it |
| VersionStore.CanonicalLinesParse | engine/corpus_studio/versions/version_restore.py:82-121 | the reconstructed lines parse to the stored rows |
| VersionStore.RowsConcat | engine/corpus_studio/cli.py:4155-4168 | the rows of lines appended to lines are the rows of both, in order |
| DatasetMutation.Project.CreateDatasetVersion | engine/corpus_studio/versions/version_registry.py:457-551 | a capture, complete or not, only adds to the store; the dataset is only read |
| DatasetMutation.Project.CaptureVerifiedUndo | engine/corpus_studio/cli.py:3744-3773 | an undo is accepted exactly when the capture completed, was readable and reconstructs the live rows |
| DatasetMutation.UndoVerifiesIff | engine/corpus_studio/cli.py:3744-3773 | an undo verifies if and only if the capture completed and read the live rows and, when there are any, finds under its manifest's ids rows with the digest of the live ones |
| DatasetMutation.Project.ApplyExamplesMutation | engine/corpus_studio/cli.py:3712-3780 | commits exactly when there is a dataset, the lock is free, the address is accepted and the undo verifies; then exactly the transformed rows are in place, otherwise the dataset is untouched and a refused address creates no version |
| DatasetMutation.Project.ExamplesDelete | engine/corpus_studio/cli.py:3784-3836 | commits exactly when moreover every row number exists; what is left are the lines at the other positions, in order; the returned undo reconstructs what was there |
| DatasetMutation.Project.ExamplesEdit | engine/corpus_studio/cli.py:3884-3934 | commits exactly when moreover the replacement is JSON that fits a known schema and the row exists; one line changes, writing the old one back restores the dataset, and the returned undo reconstructs it |
| DatasetMutation.Project.ExamplesClean | engine/corpus_studio/cli.py:3958-4076 | succeeds exactly when a kind of cleaning is chosen, the rows can be read and, where there is something to remove in place, the undo verifies; what is left are the rows without a verdict, re-serialised, in order; the returned undo reconstructs what was there; a preview or a clean dataset changes nothing |
| DatasetMutation.Project.RestoreInPlace | engine/corpus_studio/cli.py:8368-8528 | commits exactly when verification is on, the version reconstructs, the lock is free and the undo of an existing dataset verifies; then exactly the verified rows are installed, and the version still verifies |
| DatasetMutation.Project.ImportCommit | engine/corpus_studio/cli.py:4144-4181 | succeeds exactly when nothing was accepted, or the locks are free and the wanted capture completed; the dataset then holds its old lines followed by the accepted rows' lines, and so its old rows followed by the accepted rows; a busy version store refuses before the append, and the captured fingerprint is that of the grown dataset |
| DatasetMutation.Project.CollectReferencedRowIds | engine/corpus_studio/versions/gc.py:128-160 | the live ids are the union of all manifests; it refuses exactly when a manifest disagrees with its record or is no list of row ids |
| DatasetMutation.Project.GcRowStore | engine/corpus_studio/versions/gc.py:163-226 | succeeds exactly when there is no version store, or the lock is free, every manifest is trusted and any needed rewrite worked; it counts what it drops, the entries that go are stored rows no manifest names, and the others stay in order, or nothing changes |
| DatasetMutation.TrustedIff | engine/corpus_studio/versions/gc.py:106-125 | a manifest is trusted when its lines are 64 lower-case hexadecimal digits and its length is the one its record declares |
| DatasetMutation.KeptUnreferenced | engine/corpus_studio/versions/gc.py:192-210 | only stored rows that no manifest names are dropped, the rest stay in order |
| DatasetMutation.WithoutRowsAt | engine/corpus_studio/cli.py:3805-3813 | the survivors are the lines at exactly the positions not named, in order |
| DatasetMutation.DeleteRowsExact | engine/corpus_studio/cli.py:3805-3813 | deletion removes exactly as many lines as it names and keeps the lines at all other positions, in order |
| DatasetMutation.EditRowUndone | engine/corpus_studio/cli.py:3903-3911 | writing a replaced line back restores the dataset |
| DatasetMutation.CleanLinesIdempotent | engine/corpus_studio/cli.py:4056-4062 | cleaning a cleaned dataset changes none of its lines |
| DatasetMutation.DumpParses | engine/corpus_studio/cli.py:3937-3955 | re-serialised rows parse back to the rows |
| Cleaning.Judge | engine/corpus_studio/exporters/cleaning.py:65-86 | the remembered signatures give each row the verdict defined by the rows before it |
| Cleaning.VerdictIs | engine/corpus_studio/exporters/cleaning.py:65-85 | the verdict spelled out: an exact twin before it; else a remembered normalized signature, under deduplication; else more than no token and fewer than the threshold, when low information is dropped |
| Cleaning.CleanRows | engine/corpus_studio/exporters/cleaning.py:51-107 | the scan keeps exactly the rows with no verdict, counts each reason, and its counts add up |
| Cleaning.TallyIs | engine/corpus_studio/exporters/cleaning.py:62-85 | each count is the number of rows with that verdict |
| Cleaning.RemovalsAre | engine/corpus_studio/exporters/cleaning.py:90-96 | the removals list, in order, every removed row with its number from one, its reason and its sample |
| Cleaning.SampleIs | engine/corpus_studio/exporters/cleaning.py:94 | the sample is the first 120 characters of the normalized text |
| Cleaning.KeptIndicesAre | engine/corpus_studio/exporters/cleaning.py:87-89 | the kept rows are a subsequence, in order, of exactly the rows without a reason |
| Cleaning.KeptAre | engine/corpus_studio/exporters/cleaning.py:87-88 | the kept rows are the rows at the positions without a verdict, in order |
| Cleaning.KeptDistinct | engine/corpus_studio/exporters/cleaning.py:67-78 | kept rows have pairwise distinct exact and nonempty normalized signatures |
| Cleaning.Idempotent | engine/corpus_studio/exporters/cleaning.py:51-107 | cleaning what was kept removes nothing |
| Cleaning.CoherentRepresented | engine/corpus_studio/exporters/cleaning.py:67-78 | with coherent signatures every removed row has an earlier kept row with the same exact or normalized signature |
| Cleaning.LostFollowsTriple | engine/corpus_studio/exporters/cleaning.py:67-78 | a row removed without a kept twin follows an exact twin that went as a normalized duplicate and whose normalized signature differs |
| Cleaning.IncoherentLoses | engine/corpus_studio/exporters/cleaning.py:67-78 | the third of three rows that break coherence is lost |
| Cleaning.RepresentedIff | engine/corpus_studio/exporters/cleaning.py:51-107 | representatives always exist if and only if the signatures are coherent |
| RowSignatures.ExactIff | engine/corpus_studio/exporters/cleaning.py:41-42 | two rows have one exact signature if and only if they agree up to key order |
| RowSignatures.SameTexts | engine/corpus_studio/quality/basic_quality.py:188-198 | rows with the same keys and the same text under each have one normalized signature, in whatever order their keys are |
| RowSignatures.NormalizedIs | engine/corpus_studio/quality/basic_quality.py:188-197 | the normalized signature is `key=words` for each key in ascending order, joined by the unit separator |
| RowSignatures.ScalarTexts | engine/corpus_studio/quality/text.py:29-49 | the text of each kind of scalar |
| RowSignatures.ListTexts | engine/corpus_studio/quality/text.py:40-44 | a list's texts are its items' texts, in order |
| RowSignatures.ObjectTexts | engine/corpus_studio/quality/text.py:34-38 | an object's texts are its values' texts, in the order of its keys |
| RowSignatures.ShuffledLoses | engine/corpus_studio/exporters/cleaning.py:67-78 | two rows equal up to key order with different normalized signatures lose the second, after the first and its text |
| RowSignatures.CanLoseIff | engine/corpus_studio/exporters/cleaning.py:51-107 | deduplication can lose a row if and only if its normalized signature changes when keys inside it change places |
| RowSignatures.ThirdRowLost | engine/corpus_studio/quality/text.py:29-49 | three concrete rows of which the third is lost |
| RowSignatures.TidyRowsRepresented | engine/corpus_studio/exporters/cleaning.py:51-107 | among rows whose nested objects keep their keys in ascending order every removed row has an earlier kept twin |
| Obligations.ParsePolicy | scripts/assurance/obligations.py:114-168 | exactly the bundles whose entries all parse with no repeated id are accepted; the result holds exactly those entries, sorted, with valid severities and globs |
| Obligations.EntriesIff | scripts/assurance/obligations.py:116-128 | which documents have entries to parse: no unknown key, version 1 (or `true`), a nonempty list |
| Obligations.EntryIff | scripts/assurance/obligations.py:131-166 | an entry parses to an obligation if and only if it has exactly the six keys and says each field of it, with a known severity and valid globs in their order |
| Obligations.ValidGlobIff | scripts/assurance/obligations.py:92-111 | which globs are valid, character by character and segment by segment |
| Obligations.Find | scripts/assurance/obligations.py:235-236 | an id is found exactly when an obligation has it |
| Obligations.UnionPolicy | scripts/assurance/obligations.py:228-246 | everything of one side alone is kept as it is; an id of both has the candidate's texts, exactly the globs of both and the stronger severity; unique, sorted, with the digest binding both sources |
| Obligations.MergeKeeps | scripts/assurance/obligations.py:240-244 | a merge keeps every glob of both sides; what was `blocking` stays `blocking` and what was `advisory` becomes no `info` |
| Obligations.StrongerIs | scripts/assurance/obligations.py:223-225 | the stronger of two parsed severities is `blocking` if and only if one is, and `info` if and only if both are |
| Obligations.UnionIs | scripts/assurance/obligations.py:234-243 | the union member by member, in the fields' own words |
| Obligations.DirectoryGlob | scripts/assurance/obligations.py:286-288 | on folded strings `d/**` matches iff the segments of d are a prefix of the path's segments |
| Obligations.GlobKinds | scripts/assurance/obligations.py:274-293 | a directory glob, a wildcard glob and a literal path each match as they say, on folded text |
| Obligations.HitsAre | scripts/assurance/obligations.py:311 | the sorted hits are exactly the matching globs |
| Obligations.TriggersOf | scripts/assurance/obligations.py:308-316 | one trigger per touched path, sorted, each with exactly its matching globs |
| Obligations.MatchObligations | scripts/assurance/obligations.py:296-330 | a triple is reported iff the glob matches, each obligation once with its own fields, and the unmatched count is that of the distinct paths no glob matches |
| Obligations.CountUnmatched | scripts/assurance/obligations.py:329-330 | distinct paths less matched paths counts the paths no obligation touches |
| Obligations.UnionCovers | scripts/assurance/obligations.py:228-246 | each obligation of either policy has a stronger one in the union |
| Obligations.StrongerFires | scripts/assurance/obligations.py:296-330 | a stronger obligation fires whenever the weaker does, reporting at least as much |
| Obligations.UnionNeverWeakens | scripts/assurance/obligations.py:228-330 | whatever either policy fires alone the union fires, with at least its trigger paths and globs; fired `blocking` it stays `blocking`, fired `advisory` it is `advisory` or `blocking` |
| Obligations.GateStays | scripts/assurance/obligations.py:228-246 | with parsed severities, no gate is lowered: blocking stays blocking, advisory stays advisory or blocking |
| Obligations.LoadEffectivePolicy | scripts/assurance/obligations.py:249-258 | the union with the trusted base, its digest binding both, when that parses; the candidate alone otherwise, and the flag says which |
| Obligations.CaseVariantsFireAlike | scripts/assurance/obligations.py:261-330 | paths that differ only in case or composition fire the same obligations, each with as many triggers |
| Obligations.VersionTruePasses | scripts/assurance/obligations.py:121-125 | a bundle whose version is `true` is read like one whose version is 1 |
| Obligations.InnerDoubleStarPasses | scripts/assurance/obligations.py:102-110 | two valid directory globs joined by a slash are one valid glob |
| Obligations.AssessImpact | scripts/assurance/obligations.py:249-330 | from raw bundles to fired list: the list and the unmatched count are exactly those of the effective policy, and for any candidate bundle nothing the trusted base fires is lost or fires below its severity |
| Amendments.OnlyMatchIff | research/ieee-linux-training/validate_protocol.py:295-299 | the selector finds one position exactly when one item answers to the id |
| Amendments.ApplyIs | research/ieee-linux-training/validate_protocol.py:285-305 | an edit puts the new value in the named field of the one selected item, or of the document, when the old value is there, and otherwise refuses for the stated reason |
| Amendments.InverseIff | research/ieee-linux-training/validate_protocol.py:285-305 | one edit reversed restores the document iff it neither created a field nor renamed its item |
| Amendments.UndoRunIff | research/ieee-linux-training/validate_protocol.py:308-343 | a run of edits undoes back to its start iff every edit was faithful where it was applied |
| Amendments.InvertibleIff | research/ieee-linux-training/validate_protocol.py:308-343 | removing the additions and reversing the changes recovers the base iff the edits were faithful |
| Amendments.PlainManifestInvertible | research/ieee-linux-training/validate_protocol.py:308-343 | non-null old values and no change of an `id` field are enough, whatever the base |
| Amendments.RunKeepsField | research/ieee-linux-training/validate_protocol.py:324-331 | over a whole run, a field no edit of its collection names stays, in every item |
| Amendments.RunKeepsItem | research/ieee-linux-training/validate_protocol.py:324-331 | over a whole run, an item no selector names by its id stays whole |
| Amendments.UnmentionedUntouched | research/ieee-linux-training/validate_protocol.py:308-343 | every place the manifest does not mention keeps its value or its absence: top-level fields, other fields and items of an edited collection, existing bindings |
| Amendments.CellTouchesOne | research/ieee-linux-training/validate_protocol.py:300-305 | a change touches one field of the one selected item |
| SharedDocuments.StaysIff | research/ieee-linux-training/validate_protocol.py:305 | assignments to an object change nothing elsewhere if and only if one path alone leads to it |
| SharedDocuments.EditsStayIff | research/ieee-linux-training/validate_protocol.py:285-305 | on any document, shared or cyclic, the accepted edits of an item change nothing but the field they name if and only if the item is reached through its collection alone |
| SharedDocuments.AliasChangesBoth | research/ieee-linux-training/validate_protocol.py:268-305 | an aliased base on which an edit changes a place the manifest does not mention |
| SharedDocuments.AssignDenotes | research/ieee-linux-training/validate_protocol.py:305 | an assignment in place does to the value exactly the update of that field |
| SharedDocuments.ForestKept | research/ieee-linux-training/validate_protocol.py:285-305 | storing a new value of the manifest leaves no object shared |
| SharedDocuments.RunSound | research/ieee-linux-training/validate_protocol.py:324-331 | without aliases a run of edits in place refuses as the value model does, or spells out its result |
| SharedDocuments.TreeEffective | research/ieee-linux-training/validate_protocol.py:308-343 | without aliases the whole build in place refuses as the value model does, or spells out exactly the effective document |
| Amendments.ExtendUndone | research/ieee-linux-training/validate_protocol.py:335-343 | additions are new fields only, and removing them restores what was there |
| Amendments.ExtendIff | research/ieee-linux-training/validate_protocol.py:335-342 | additions are accepted if and only if each is new; then each is there with its value, and nothing else is |
| Amendments.EffectiveHas | research/ieee-linux-training/validate_protocol.py:332-342 | the effective document has every addition and every binding addition with its value |
| Amendments.Document.ApplyEdit | research/ieee-linux-training/validate_protocol.py:285-305 | the working copy is edited in place, or left as it was with the refusal |
| Amendments.Document.ApplyAll | research/ieee-linux-training/validate_protocol.py:324-331 | the edits are applied in order up to the first refusal |
| Amendments.BuildExpectedEffective | research/ieee-linux-training/validate_protocol.py:308-343 | the effective document or the first error in the code's order, invertible for a plain manifest |
| IdentityRegistry.ValidateReserved | research/ieee-linux-training/validate_protocol.py:346-361 | a registry is accepted exactly when every listed class is a sorted list of distinct nonempty values and reuse is off |
| IdentityRegistry.ClassWellFormedIff | research/ieee-linux-training/validate_protocol.py:350-359 | a class is well formed when it is listed, ascending without repetition, and no value is empty |
| IdentityRegistry.ValidateReservedSuperset | research/ieee-linux-training/validate_protocol.py:396-412 | accepted exactly when no class and no identity of the prior version is gone; otherwise a class that lost something is named |
| IdentityRegistry.NothingDropped | research/ieee-linux-training/validate_protocol.py:396-412 | over any chain of accepted versions nothing ever reserved leaves |
| IdentityRegistry.Overlap | research/ieee-linux-training/validate_protocol.py:1086-1113 | the overlap is exactly the values reused: folded for ids, exact otherwise, and by nesting for paths |
| IdentityRegistry.ValidateField | research/ieee-linux-training/validate_protocol.py:1062-1117 | one class is accepted iff sorted, unique, of the stage's emptiness, well formed and reusing nothing |
| IdentityRegistry.FieldAcceptedIff | research/ieee-linux-training/validate_protocol.py:1062-1118 | one class is accepted iff its values ascend without repetition, are empty or nonempty as the stage asks, each have the class's form, and none is reused |
| IdentityRegistry.StageRules | research/ieee-linux-training/validate_protocol.py:1070-1077 | for each stage, by name, the classes that must and those that must not be empty |
| IdentityRegistry.FormRules | research/ieee-linux-training/validate_protocol.py:1078-1104 | by name, which classes hold hashes, identities and paths, and what each looks like |
| IdentityRegistry.CanonicalIff | research/ieee-linux-training/validate_protocol.py:1095-1101 | a path is canonical if and only if it is `/` or `//` followed by components, none empty, `.` or `..`, with single slashes between them |
| IdentityRegistry.ReuseRules | research/ieee-linux-training/validate_protocol.py:1086-1114 | by name, which classes compare values folded, which exactly, and which by nesting as well |
| IdentityRegistry.SignificantAre | research/ieee-linux-training/validate_protocol.py:1095-1106 | a path's components are the segments that are neither empty nor `.`, in order |
| IdentityRegistry.RootIs | research/ieee-linux-training/validate_protocol.py:1095-1097 | exactly two leading slashes are a root of their own; any other number is `/` |
| IdentityRegistry.ValidateCandidate | research/ieee-linux-training/validate_protocol.py:1041-1117 | the candidate is accepted iff every class is; a reuse refusal lists exactly the reused values |
| IdentityRegistry.NeverReused | research/ieee-linux-training/validate_protocol.py:396-1117 | a candidate accepted against the newest of a chain shares no identity with any version; ids not up to case, paths not by nesting |
| IdentityRegistry.InsideIsNested | research/ieee-linux-training/validate_protocol.py:1105-1109 | a path written inside a canonical one is nested in it |
| IdentityRegistry.NeverNestedInText | research/ieee-linux-training/validate_protocol.py:1093-1117 | an accepted path is not written at, under or above a canonical path ever reserved |
| IdentityRegistry.ReusedUnderSameRoot | research/ieee-linux-training/validate_protocol.py:1093-1113 | a path is recognized as reused if and only if some reserved path it overlaps, component by component, is under the same root |
| IdentityRegistry.MirroredStops | research/ieee-linux-training/validate_protocol.py:1093-1113 | against a mirrored registry every canonical path that overlaps a reserved one is recognized |
| IdentityRegistry.UnmirroredSlips | research/ieee-linux-training/validate_protocol.py:1093-1113 | for a reserved path without a mirror there is a canonical path that overlaps it and is not recognized |
| IdentityRegistry.PathsDisjointIff | research/ieee-linux-training/validate_protocol.py:1062-1117 | no accepted path overlaps a reserved one if and only if the registry mirrors each of its paths under both absolute roots |
| IdentityRegistry.DoubledRootAccepted | research/ieee-linux-training/validate_protocol.py:1062-1117 | a reserved path written with a doubled first slash has the same components and its class is accepted |
| Expressions.TrimPadded | docs/design/handoff/support.js:206 | trimming removes exactly the white space around a text |
| Expressions.TopLevelEquality | docs/design/handoff/support.js:248-262 | the first comparison operator outside all brackets that is no tail of another operator and has a left operand |
| Expressions.ParensWrapWhole | docs/design/handoff/support.js:237-247 | true exactly when no closing parenthesis before the last character returns the depth to zero |
| Expressions.FindTopLevelEquality | docs/design/handoff/support.js:248-262 | the depth-counting scan finds the first top-level operator and which of the four it is |
| Expressions.FindClosingBracket | docs/design/handoff/support.js:275-285 | the inner scan stops at the matching bracket, or at the end when there is none |
| Expressions.ResolveText | docs/design/handoff/support.js:203-236 | the evaluator terminates on every string with the value of the recursive definition |
| Expressions.ResolvePathText | docs/design/handoff/support.js:263-294 | so does the path loop, nested keys included |
| Lexicon.SpaceIff | docs/design/handoff/support.js:206 | the code points `trim` removes |
| Lexicon.IdentIff | docs/design/handoff/support.js:203 | a name is a letter, `_` or `$`, then those and digits |
| Lexicon.MemberIff | docs/design/handoff/support.js:270 | after a dot, a name or a run of digits |
| Lexicon.NumberIff | docs/design/handoff/support.js:204 | a number is an optional minus sign, digits, and optionally a point with more digits |
| Lexicon.DepthCounts | docs/design/handoff/support.js:252-253 | depth is the opening less the closing brackets of its kinds |
| Lexicon.OperatorsAre | docs/design/handoff/support.js:215-224 | the four operators as written, and what each compares |
| Lexicon.WordsRead | docs/design/handoff/support.js:227-230 | the four words have their values |
| Lexicon.NameReads | docs/design/handoff/support.js:264-266 | any other name is looked up in the values; on null and undefined nothing is found |
| Lexicon.NumberReads | docs/design/handoff/support.js:231 | a number's text is that number |
| Lexicon.TextReads | docs/design/handoff/support.js:232-234 | text between two like quotes, if it holds no bracket and no operator character, is that text |
| Lexicon.BlankReads | docs/design/handoff/support.js:206-207 | white space reads as undefined |
| Lexicon.JunkReads | docs/design/handoff/support.js:263-265 | text without `=` that starts no name, negation or parenthesised text and is neither a number nor quoted reads as undefined |
| Lexicon.StrayReads | docs/design/handoff/support.js:268-291 | a path followed by text without `=` that does not continue it, a dot without a name included, reads as undefined |
| Lexicon.UnclosedReads | docs/design/handoff/support.js:274-285 | a path with a bracket after which nothing closes reads as undefined |
| ExpressionMeaning.PrintBalanced | docs/design/handoff/support.js:248-262 | an expression's text is balanced in every kind of bracket, no prefix closing more than it opened |
| ExpressionMeaning.PrintQuiet | docs/design/handoff/support.js:248-262 | an operand's text shows no operator outside brackets |
| ExpressionMeaning.EqualityFound | docs/design/handoff/support.js:248-262 | the operator found in an equality's text is the one between its operands |
| ExpressionMeaning.GroupWraps | docs/design/handoff/support.js:237-247 | a parenthesised expression is recognized as one |
| ExpressionMeaning.EqualNotWrapped | docs/design/handoff/support.js:237-247 | two parenthesised operands are not mistaken for one parenthesised expression |
| ExpressionMeaning.KeyCloses | docs/design/handoff/support.js:275-285 | a bracketed key ends at its own bracket, nested brackets notwithstanding |
| ExpressionMeaning.PathSteps | docs/design/handoff/support.js:263-294 | the scan of a path arrives, after its text, at the value the path leads to, whatever follows |
| ExpressionMeaning.ResolvePrint | docs/design/handoff/support.js:203-294 | evaluating the text of any tree over readable quoted texts, white space between any tokens and parentheses only where grouping needs them, gives the tree's value |
| QuotedTexts.LoudLiteral | docs/design/handoff/support.js:248-262 | an operator outside brackets splits the quoted literal itself |
| QuotedTexts.GroupBreaks | docs/design/handoff/support.js:237-247 | a parenthesis closed too early ends the group around the literal |
| QuotedTexts.KeyBreaks | docs/design/handoff/support.js:275-285 | unbalanced square brackets end a key too early or never |
| QuotedTexts.ComparisonBreaks | docs/design/handoff/support.js:248-262 | text left at another depth hides the operator after it |
| QuotedTexts.QuotedTextsIff | docs/design/handoff/support.js:203-294 | every tree over a set of quoted texts is read as its value, by every host and under any padding, if and only if each text balances and hides its operators |
| ExpressionMeaning.BracketInQuotesHidesOperator | docs/design/handoff/support.js:248-262 | an opening parenthesis inside a quoted left operand hides the operator, and the comparison is read as one string |

## Left out

- WorkerReachability.ReachableFrom: the order and the wording of the unresolved-import and unreadable records are not modelled. Each record names the importer by whichever dotted name reached the file first, which depends on set order; only the gaps themselves are proved independent of it.
- WorkerReachability.ReachableFrom: a file that resolves and then cannot be read, by a race with the file system, is not modelled; a view is a fixed map.
- ReachabilityImpact.ImpactCompleteIff: the roots are taken to be spelled as their own names resolve (`WellFormedRoots`), as all configured roots are.
- OrderIndependence.OrderIndependentIff: a source tree has no file called just `.py`; with one, `t.a.` and `t.a/` would be two names of it.
- ImportGraph.ImportTargets: starts from the import nodes of a parsed module; Python's parser is not part of this model.
- ModuleNames.RelativeImport: segments are nonempty, as every parsed import and every path with nonempty components gives; the code's dropping of empty segments is in `Climb` but not characterised beyond that.
- Redaction.PrivateKeySpans: the detector's matches are given, sorted, non-overlapping and nonempty; its regular expression is not modelled.
- RedactionReport.RedactRows: the other detectors are a given function of the row after private-key masking; their patterns, the Luhn test and numeric leaves turned into placeholders are theirs. They are taken to count only the kinds that matched.
- JsonText.RoundTrip: the reader covers sections 4 to 7 of RFC 8259 except numbers with a fraction or exponent and surrogate-pair escapes, which the printer never writes. Python's limit on the digits of an integer text is not modelled.
- CanonicalJson.RejectIff: the wording of the refusals is not modelled, only where they point.
- ChangeSets.BuildChangeSetRecord: resolving a scope and running git are parameters; a view is a function from paths to states.
- ChangeSets.WorkspaceSourceView.State: the errors of the operating system are one case each; reading a setting through git cannot fail.
- ChangeSets.CleanCheckoutIff: a tree of regular files and links; submodules are not part of it.
- VersionStore.StepKeepsVersion: version ids are never issued twice, and no step deletes a version record; the store has no command that does.
- DatasetMutation.Project.ApplyExamplesMutation: replacing the dataset file is atomic, as the writer's temporary-file swap provides; a crash inside the swap is not modelled. A lock is free or not for the whole command.
- DatasetMutation.Project.ExamplesClean: no other writer comes between the preview and the lock, so the reported counts are those of the cleaned rows.
- DatasetMutation.Project.ExamplesEdit: reading the options and the replacement file is not modelled; JSON parsing, the schema's issues and serialising are given functions.
- DatasetMutation.Project.ImportCommit: validation of the incoming rows and the quarantine file are not modelled.
- DatasetMutation.Project.CreateDatasetVersion: what a capture stores, publishes and claims is left to the environment, so that the commands are safe whatever it does; the code's own rollback of a failed capture is not promised.
- DatasetMutation.DeleteRowsExact: the wording of the refusal is fixed text.
- Byte-order marks, line endings and encodings of the stored files are not modelled; a dataset is its lines.
- Cleaning.CleanRows: signatures and token counts are given functions of a row; RowSignatures gives the code's own.
- RowSignatures.ExactIff: rows without fractions; the escaping of non-ASCII characters in the exact signature is not modelled. Unicode normalization, lower case and the token pattern are one given function.
- Obligations.MatchObligations: folding and wildcard matching are given functions; the trigger count of a fired entry is the length of its list.
- Obligations.AssessImpact: reading the two bundles from disk and from git is a parameter; a base bundle that is not JSON is one that does not parse.
- Amendments.InvertibleIff: values are taken up to Python's `==`, so a change with old value `true` over a stored `1` counts as undone though it leaves `true`.
- Amendments.UnmentionedUntouched: a base whose YAML has no alias; SharedDocuments says what an alias does.
- Amendments.CellTouchesOne: likewise.
- IdentityRegistry.ValidateCandidate: the candidate's values are lists of strings, as the code's own type test demands; the wheel, cardinality and environment cross-checks that follow the loop are not modelled.
- IdentityRegistry.NeverReused: case folding is a given function.
- ExpressionMeaning.ResolvePrint: property lookup, the two equalities and truthiness are given functions of the script engine, and lookups do not throw.
- The constant-pinning validators, document lint, status snapshots, exporters other than redaction and cleaning, evaluation averages, HTTP backends, the user interface and the streaming parts of support.js would add only easy members or are external effects.
