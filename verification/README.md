# Model of the workspace tooling

A Dafny model of the parts of the repository whose correctness does not show in
any one branch: a glob compiler, the planner that rebuilds a work tree, the
code-graph store and its reconciliation, a requirements reader, scoped
configuration, text and file transactions, and the printers and parsers of
resource identities.  Each file models one component and starts with the
functions or methods that follow its code; the theorems about them come after.

- `Regexes`, `GlobSegments`, `GlobMeaning`, `Glob` and `GlobLimits` compile path
  patterns to regular expressions.  Both have a denotational meaning, and
  compilation is proved to preserve it; where it does not, the exact condition is
  given.
- `WorkPaths`, `Hierarchy`, `Forest` and `Targets` merge three claims about a
  hierarchy, find its cycles, and plan target directories.
- `Tables`, `Upsert`, `UpsertLaws`, `Sweep` and `CallWalk` are the code graph: a
  node table and an edge table, the writes that change them, laws over every run
  of those writes, and the bounded recursive reads.
- `Sessions` takes the emitters' batches, stamps, deletions and sweeps in any order,
  and proves for every such run what the laws of one step ask of a store.
- `Manifests` gathers what packages declare, and `Reconcile` brings the graph's
  dependency rows and edges in line with it; `ReconcileMeaning` says in terms of
  the manifests alone which rows and edges those are.
- `LogicalLines` and `Requirements` read requirements files over a possibly
  cyclic include graph.
- `CodeSpans` masks inline code; `Renames` carries a batch of files with rollback.
- `Values`, `Dotted`, `YamlMerge`, `Registry` and `PlainStore` are scoped
  configuration: ordered nested mappings, layering, the merge that keeps
  formatting, and the all-or-nothing write.
- `Affected` widens changed paths to dependent units; `Uris` and `Placement`
  print and parse resources and page IDs; `Paths` is the splitting and joining
  they share.

Input, output and clocks are parameters: patterns and paths are strings, the
database is two maps, a file tree is a map and a set of directories, and a YAML
loader is a function to trees.  Where a step may fail for outside reasons, the
model lets it fail at any time unless a parameter says that it is left alone.

## Where code and documentation differ

- `_translate` promises that a trailing `/**` is optional, but a pattern ending in
  two `**` requires a slash: `MeaningPreservedIff` gives the exact condition, and
  such a pattern ignores nothing (`DoubledIgnoresNothing`).
- `delink` calls itself idempotent by construction; for empty text its two fences
  are one run and stay visible: `DelinkMasksAll`.
- `unrename_reserved` is documented as the inverse of `rename_reserved`; it is one
  exactly if no landed destination is at or below a vacated source and no
  directory has taken the place of one (`RollbackIff`).
  The check that no destination exists beforehand rules out a destination at a
  source but not below one (`GuardedRollback`, `UnclearBatchLands`), since the
  directory is made in the place that the source has just left.
- A node is kept when Python's `==` holds, so `True` written over `1` stays `1`.

## Model

| member | source | states |
|---|---|---|
| GlobSegments.BracketEnd | packages/code-graph-io/src/code_graph_io/_ignore.py:143-155 | The scan for `]` finds the first one that can close the bracket (a leading `!` and a `]` in first place do not), or reports that none does |
| GlobSegments.TranslateNext | packages/code-graph-io/src/code_graph_io/_ignore.py:114-139 | One step of the component scan emits the fragment that starts at its position and resumes right after it, whatever the branch |
| GlobSegments.TranslateSegment | packages/code-graph-io/src/code_graph_io/_ignore.py:102-140 | The component loop emits the fragments of the whole component, left to right; `SegmentRegexMeaning` says what they denote |
| GlobSegments.SegmentRegexMeaning | packages/code-graph-io/src/code_graph_io/_ignore.py:102-140 | The fragments of every component fully match a string exactly if the component, read as a glob, does: `*` and `?` stop at a slash, a glued `**` does not, an unclosed `[` is literal |
| Glob.TranslateComponent | packages/code-graph-io/src/code_graph_io/_ignore.py:81-98 | The loop body of `_translate` with its flag: which separator and which optional group a component appends, and whether it has already supplied a slash |
| Glob.Translate | packages/code-graph-io/src/code_graph_io/_ignore.py:63-99 | The component loop emits the pieces of all components with the flag threaded through; the lemmas below give their meaning |
| Glob.CompiledGlobSound | packages/code-graph-io/src/code_graph_io/_ignore.py:63-99 | For every pattern and path, what the compiled regex fully matches is matched by the pattern read component by component, `**` standing for zero or more whole components |
| Glob.CompiledGlobExact | packages/code-graph-io/src/code_graph_io/_ignore.py:63-99 | For every pattern whose last two components are not both `**`, the compiled regex fully matches a one-line path exactly if the pattern does |
| GlobLimits.MeantIff | packages/code-graph-io/src/code_graph_io/_ignore.py:63-99 | A pattern means some one-line path exactly if every literal and every closed bracket of each component admits a character other than a newline |
| GlobLimits.DoubledStarMisses | packages/code-graph-io/src/code_graph_io/_ignore.py:86-88 | For every pattern that ends in two `**` and means some one-line path, a path that it means and the regex misses: the last group is emitted without reading the flag |
| GlobLimits.MeaningPreservedIff | packages/code-graph-io/src/code_graph_io/_ignore.py:63-99 | Every pattern keeps its meaning on all one-line paths exactly unless it ends in two `**` and each of its components has a one-line text |
| GlobLimits.BracketFreePreservedIff | packages/code-graph-io/src/code_graph_io/_ignore.py:63-99 | So a pattern on one line without brackets keeps it exactly if its last two components are not both `**` |
| GlobLimits.DoubleStarAlone | packages/code-graph-io/src/code_graph_io/_ignore.py:83-85 | The pattern `**` alone means every path, and its regex matches exactly the one-line ones |
| GlobLimits.WildcardsStayInside | packages/code-graph-io/src/code_graph_io/_ignore.py:102-140 | A component without brackets and without a glued `**` only matches slash-free text |
| GlobLimits.ComponentwiseMeaning | packages/code-graph-io/src/code_graph_io/_ignore.py:63-99 | For such components the pattern's meaning is the plain one: pattern and path are matched component against component, and only a standalone `**` takes several or none |
| GlobLimits.CompileIgnore | packages/code-graph-io/src/code_graph_io/_ignore.py:54-60 | Every pattern is compiled, in order |
| GlobLimits.DoubledIgnoresNothing | packages/code-graph-io/src/code_graph_io/_ignore.py:86-95 | A pattern that ends in two `**` matches no path without an empty part, that is, no relative path as paths are written |
| GlobLimits.IgnoredIffSomePatternMatches | packages/code-graph-io/src/code_graph_io/_ignore.py:50-60 | Whatever the list, an ignored path is meant by some pattern; and a one-line path without an empty part is ignored exactly if a pattern means it that does not end in two `**` |
| GlobLimits.IgnoredComponentwise | packages/code-graph-io/src/code_graph_io/_ignore.py:50-60 | For lists without such endings, brackets and glued `**`, a path is ignored exactly if some pattern matches it component against component |
| WorkPaths.ParsePath | packages/work-tracker-okf/src/work_tracker_okf/paths.py:77-115 | The path of every valid location parses back to that location |
| WorkPaths.PathOfParsed | packages/work-tracker-okf/src/work_tracker_okf/paths.py:77-115 | Only such paths parse: composing what was parsed gives the path back |
| WorkPaths.ContainmentIsPrefix | packages/work-tracker-okf/src/work_tracker_okf/paths.py:77-115 | One item path lies strictly inside another exactly if both share the archive marker and the outer names are a proper prefix of the inner ones |
| WorkPaths.DateFreeBasenameValid | scripts/migrate_vault_work.py:254-258 | The derived basename of a parsed item is always valid, so the basename refusal never fires for it, and it starts with the prefix of the item's type; the next two rows say which name it is |
| WorkPaths.DatedName | scripts/migrate_vault_work.py:254-258 | Ten characters of the form NNNN-NN-NN and a dash before an undated rest make no difference to the planned name |
| WorkPaths.UndatedName | scripts/migrate_vault_work.py:254-258 | An undated name is planned as it is exactly if it is the type's prefix or that prefix, a dash and more, and else behind the prefix and a dash; it is refused if the result is no kebab-case name |
| WorkPaths.BasenameShape | packages/work-tracker-okf/src/work_tracker_okf/paths.py:73-74 | A valid basename is lower-case letters and digits in nonempty groups between single dashes, and none of the reserved names |
| Hierarchy.Aliases | scripts/migrate_vault_work.py:261-276 | An item is filed under a key exactly if the key is one of its six normalized spellings |
| Hierarchy.NormalizeMeaning | scripts/migrate_vault_work.py:274-286 | A raw reference normalizes to `core` exactly if it is `core` with white space around it, with one slash before it unless it starts without one, and with one ending `.md` unless it has none |
| Hierarchy.AnswersIff | scripts/migrate_vault_work.py:261-276 | A parsed item answers to exactly its old path, its basename, and its basename without the date |
| Hierarchy.HeldUndated | scripts/migrate_vault_work.py:261-276 | So an item at a dated basename is held under the undated one |
| Hierarchy.Resolve | scripts/migrate_vault_work.py:279-292 | A raw reference names an item exactly if that item alone answers to the normalized reference, is missing exactly if none does, and is ambiguous otherwise |
| Hierarchy.CollectParent | scripts/migrate_vault_work.py:306-311 | One node's declared parent becomes its claim, or a refusal exactly if it does not resolve, as missing or as ambiguous |
| Hierarchy.CollectChildren | scripts/migrate_vault_work.py:312-328 | One node's children list is recorded in full, and without a refusal it represents all claims made so far; refused are exactly the references that do not resolve, as missing or as ambiguous, and the children that an earlier list gave another owner |
| Hierarchy.CollectClaims | scripts/migrate_vault_work.py:305-328 | After the first loop the claim maps stand for all declared parents and children lists; it refused exactly the nodes one of whose references does not resolve and the children that two lists claim |
| Hierarchy.Place | scripts/migrate_vault_work.py:330-375 | One node is placed without refusal exactly if it has at most one candidate parent, which is a node of a parent type, lists the node if it lists children, and the node is not root-only; otherwise the refusals raised are exactly the faults present, and a lone candidate stays as parent beside them |
| Hierarchy.AssignParents | scripts/migrate_vault_work.py:330-375 | The second loop refuses nothing exactly if every node is placed, and then the parent map holds each node's one candidate; otherwise it refuses exactly the faults of each node's candidates |
| Forest.WalkFrom | scripts/migrate_vault_work.py:379-394 | One walk leaves a set closed under parents, and reports the items of its trail that lie on a cycle and no others |
| Forest.FindCycles | scripts/migrate_vault_work.py:377-394 | The walk ends on every parent map, missing parents included, and reports a path exactly if it lies on a cycle, and exactly once |
| Forest.TrailCloses | scripts/migrate_vault_work.py:383-389 | A trail that meets its own item `k` has found one cycle, namely its part from `k` on |
| Forest.TrailLeaves | scripts/migrate_vault_work.py:382-394 | A trail that ends, or joins an earlier walk, holds no item of a cycle |
| Hierarchy.Settled | scripts/migrate_vault_work.py:295-395 | The three loops together refuse nothing exactly if some acyclic parent map agrees with every claim, and then theirs does |
| Hierarchy.BuildHierarchy | scripts/migrate_vault_work.py:295-395 | Refuses nothing exactly if the claims cohere; then the parent map agrees with every declared parent, every children list and every physical location, a parent that lists children lists exactly its children, parents have parent types, no root-only item is nested, and nothing is its own ancestor.  Otherwise it refuses exactly, with their kinds, the nodes whose references are missing or ambiguous, whose claims differ, whose parent is no node, omits them or may not own them, and those on cycles |
| Hierarchy.AgreementIsUnique | scripts/migrate_vault_work.py:295-395 | At most one parent map agrees with the claims, so the accepted hierarchy does not depend on the order of the nodes |
| Targets.AcyclicEnds | scripts/migrate_vault_work.py:377-426 | Without cycles every chain of parents ends, by counting: this is why the target recursion ends |
| Targets.AgreementIsPlannable | scripts/migrate_vault_work.py:705-710 | What the hierarchy accepts is what the target planner needs |
| Targets.Basenames | scripts/migrate_vault_work.py:404-411 | Refuses exactly the nodes without a valid basename, and if there is none, records each node's own |
| Targets.TargetPlanner.TargetFor | scripts/migrate_vault_work.py:415-429 | The memoized recursion ends and returns the path of the item's chain of names below its root's lane, keeping every earlier entry |
| Targets.Collisions | scripts/migrate_vault_work.py:435-442 | Refuses only items that share their target, and of any two that share one at least one |
| Targets.PlanTargets | scripts/migrate_vault_work.py:398-443 | Refuses nothing exactly if every item is named and all targets differ; then every item has its target; otherwise the refusals are exactly the nameless items, or collisions of targets |
| Targets.ParsedIsNamed | scripts/migrate_vault_work.py:404-411 | Items at parsed paths always have a valid basename |
| Targets.NestingIsAncestry | scripts/migrate_vault_work.py:415-443 | One target directory lies strictly inside another exactly if the first item is a proper descendant of the second |
| Targets.MigratedTreeReparses | scripts/migrate_vault_work.py:415-429 | Every target parses, and its physical parent is its parent's target: the migrated tree re-parses to the forest it was planned from |
| Targets.PlanTree | scripts/migrate_vault_work.py:705-710 | Aliases, hierarchy and targets together, for parsed nodes: nothing is refused exactly if all references resolve and one acyclic parent map agrees with every claim and gives different targets; then each target is the lane or the parent's target followed by the date-free name, the targets re-parse to that forest, and they nest exactly as it descends; incoherent claims are refused as the hierarchy says, and coherent ones only for collisions |
| Upsert.GraphDb.InsertNode | packages/code-graph-io/src/code_graph_io/upsert.py:90-109 | Adds one row under a fresh id, stamped with the scope unless its kind is global |
| Upsert.GraphDb.UpsertNode | packages/code-graph-io/src/code_graph_io/upsert.py:126-141 | Writes a record onto the row its key or dependency URI lands on, or adds a row under a fresh id; the returned id's row has every column the record gives, the stamp of the scope if it is new, and no other row changes |
| Upsert.GraphDb.EnsureNode | packages/code-graph-io/src/code_graph_io/upsert.py:144-148 | Afterwards the key resolves to the returned id, and a row was added only if it did not before |
| Upsert.GraphDb.UpsertEdge | packages/code-graph-io/src/code_graph_io/upsert.py:151-179 | One edge with the source and kind of the record is written: a pathless call or export of a code kind ends in the row of kind `unresolved_symbol` with that name and no path, every other edge in the row of the record's own destination; rows are added only for its ends; and the stored attributes are the record's with `symbol_kind` for a symbol reference and `resolution` unresolved for a pathless end, and null if there are none |
| Upsert.UpsertedIsStored | packages/code-graph-io/src/code_graph_io/upsert.py:58-141 | What the run laws below call the store after a node record holds the record, column by column |
| Upsert.UpsertedEdgeIsStored | packages/code-graph-io/src/code_graph_io/upsert.py:151-179 | What they call the store after an edge record holds it in the sense just said |
| Upsert.GraphDb.UpsertRecords | packages/code-graph-io/src/code_graph_io/upsert.py:182-187 | All node records, then all edge records, in order; the laws below are about this |
| Upsert.GraphDb.StampRepo | packages/code-graph-io/src/code_graph_io/update.py:350-353 | No row comes or goes; a row is claimed exactly if it is unowned and neither a builtin nor a dependency, and every other row stays as it was |
| Upsert.StampSettles | packages/code-graph-io/src/code_graph_io/update.py:350-353 | After one stamp nothing is left to claim, so no later stamp, of whatever repository, takes a row over |
| UpsertLaws.RunDisciplined | packages/code-graph-io/src/code_graph_io/upsert.py:58-187 | In every sequence of batches, scope switches and stamps, a path-bearing non-dependency key keeps having either one unowned row alone or rows of pairwise different repositories |
| UpsertLaws.BatchKeepsForeign | packages/code-graph-io/src/code_graph_io/upsert.py:58-187 | A batch under one repository alters no path-bearing row of another that is found by its key; and no path-bearing non-builtin row at all, dependencies included, if no dependency record has the URI of another repository's dependency |
| UpsertLaws.ForeignKeptIff | packages/code-graph-io/src/code_graph_io/upsert.py:112-141 | Over stores whose dependency URIs are distinct, exactly then: whatever line numbers a batch carries, it keeps all such rows if and only if it spares those URIs |
| UpsertLaws.ForeignOverwritten | packages/code-graph-io/src/code_graph_io/upsert.py:112-141 | A record under the second repository that overwrites a row of the first |
| UpsertLaws.UpsertsKeepUrisDistinct | packages/code-graph-io/src/code_graph_io/upsert.py:112-141 | Upserts keep the URIs of dependency rows distinct |
| Sessions.SessionKeepsGood | packages/code-graph-io/src/code_graph_io/upsert.py:90-187 | In every session of emitted batches, scope switches, stamps, put edges, deletions and sweeps: foreign keys hold, every edge starts at a row with a path, dependency URIs are distinct, and each dependency row is named after the repository that owns it |
| Sessions.SessionKeepsForeign | packages/code-graph-io/src/code_graph_io/upsert.py:58-187 | So no batch of such a session alters a path-bearing non-builtin row that another repository owns |
| UpsertLaws.UpsertedOwns | packages/code-graph-io/src/code_graph_io/upsert.py:126-141 | After any record is written, a row holds it, and it is the row that the record would land on again |
| UpsertLaws.UpsertIdempotent | packages/code-graph-io/src/code_graph_io/upsert.py:182-187 | Repeating a batch changes nothing, if in it one dependency key has one URI or none and one URI has one key |
| UpsertLaws.EmittedBatchRepeats | packages/code-graph-io/src/code_graph_io/dependencies.py:178-194 | Every batch whose dependency records are built as the emitters build them, key and URI from one repository, ecosystem and name, repeats without effect, over any store and scope |
| UpsertLaws.InconsistentBatchRepeats | packages/code-graph-io/src/code_graph_io/upsert.py:126-141 | The condition cannot be dropped: a batch that no emitter builds, whose repetition adds a row |
| Sweep.TierMeaning | packages/code-graph-io/src/code_graph_io/resolve.py:203-248 | The tiers find exactly the candidates: all rows of the kind and name; if there is none, the only code row of that name; and if no code row has the name, all code rows whose last part is the leaf |
| Sweep.TargetsAreAnswers | packages/code-graph-io/src/code_graph_io/resolve.py:189-230 | The edges' matches, by rows and attributes alone: an edge into an `unresolved_symbol` row with a text `symbol_kind` is answered by the candidates of that kind, any other by those of the row's own kind |
| Sweep.Repoint | packages/code-graph-io/src/code_graph_io/resolve.py:259-270 | One edge is replaced by an edge to every candidate, flagged exact or ambiguous |
| Sweep.SweepPlaceholders | packages/code-graph-io/src/code_graph_io/resolve.py:189-280 | After the loop each placeholder edge is flagged unresolved or replaced by its candidates, whatever the order of fetching, and then exactly the unreferenced deletable placeholders are gone |
| Sweep.SweepConserves | packages/code-graph-io/src/code_graph_io/resolve.py:189-280 | If placeholders have no outgoing edges: every edge into one is kept and flagged or replaced by edges to exactly its tier's candidates, which carry its attributes flagged exact or ambiguous; no other edge comes, goes or changes, and only unreferenced placeholders are lost |
| Sweep.SweepMeaning | packages/code-graph-io/src/code_graph_io/resolve.py:233-290 | The sweep, edge by edge: an unanswered edge stays, flagged unresolved; an answered one gives way to an edge to every answer with the old attributes and `resolution` exact for one answer and ambiguous for several; every other edge stays as it was and no other is added |
| Sweep.RowsSwept | packages/code-graph-io/src/code_graph_io/resolve.py:272-280 | The sweep, row by row: lost are exactly the rows without a path or a URI, no package among them, into which every edge is answered; the others stay as they were |
| Sweep.SweepTwice | packages/code-graph-io/src/code_graph_io/resolve.py:189-280 | A second sweep changes nothing exactly if the first one stranded no placeholder, that is, deleted the only row that referred to it |
| Sweep.SinksAreNotStranded | packages/code-graph-io/src/code_graph_io/resolve.py:272-280 | Placeholders without outgoing edges strand nothing |
| Sessions.SessionStrandsNothing | packages/code-graph-io/src/code_graph_io/resolve.py:189-280 | In every such session no store has a placeholder that a sweep would strand |
| Sessions.SessionSweepsOnce | packages/code-graph-io/src/code_graph_io/resolve.py:189-280 | So a second sweep right after a first changes nothing |
| Sweep.StrandedExample | packages/code-graph-io/src/code_graph_io/resolve.py:272-280 | A store that no such session reaches: of two chained placeholders the sweep strands the second |
| CallWalk.RecursiveRows | packages/code-graph-io/src/code_graph_io/queries.py:603-686 | The recursive query ends on cyclic graphs and produces exactly the pairs of a row and the length of an admitted walk to it within the bound |
| CallWalk.Walk | packages/code-graph-io/src/code_graph_io/queries.py:603-686 | `callers` and `callees` return exactly the path-bearing rows within the bound, each with the length of its shortest admitted walk |
| CallWalk.Callers | packages/code-graph-io/src/code_graph_io/queries.py:603-643 | Lists a path-bearing row at depth 1 exactly if it is the source of an admitted call whose end has a path and is named as asked or ends in a dot and the name, and at depth `d + 1` exactly if it calls a row at depth `d` and none shorter; with tests cut, sources lie in no test file |
| CallWalk.Callees | packages/code-graph-io/src/code_graph_io/queries.py:646-686 | The same along the calls that the named rows make |
| CallWalk.CallersMirrorCallees | packages/code-graph-io/src/code_graph_io/queries.py:603-686 | With the test filter off and single start rows, `a` calls `b` at a distance exactly if `b` is called by `a` at it |
| Manifests.NormalizeIdempotent | packages/code-graph-io/src/code_graph_io/dependencies.py:34-47 | A normalized name is its own normal form |
| Manifests.NamesMeet | packages/code-graph-io/src/code_graph_io/dependencies.py:34-47 | Two names get one normal form exactly if, for PyPI, they have the same letters but for case with nonempty runs of `-`, `_` and `.` at the same places, and for npm, the same characters but for case |
| Manifests.NormalForm | packages/code-graph-io/src/code_graph_io/dependencies.py:34-47 | The PyPI form has no capital, no `_`, no `.` and no two dashes in a row, and is a name of the same project; the npm form is the name in lower case |
| Manifests.Gatherer.DeclareOne | packages/code-graph-io/src/code_graph_io/dependencies.py:148-153 | `declare` notes one use and, if there is a spec, its version entry under the normalized key, so that the buckets keep holding exactly what was declared; it refuses exactly an unsupported ecosystem |
| Manifests.Gatherer.ReadManifests | packages/code-graph-io/src/code_graph_io/dependencies.py:155-166 | The manifest loop files every distributable package under its normalized identity and declares its dependencies in order |
| Manifests.Gatherer.ReadVirtuals | packages/code-graph-io/src/code_graph_io/dependencies.py:168-170 | The second loop declares what virtual repository roots ask for, after the manifests |
| Manifests.Gatherer.Gather | packages/code-graph-io/src/code_graph_io/dependencies.py:143-170 | Refuses exactly if some ecosystem is unsupported; otherwise the three accumulators are all declarations in order, exactly their version entries, and exactly the packages behind each identity |
| Reconcile.Store.DeleteOwnedEdges | packages/code-graph-io/src/code_graph_io/dependencies.py:105-112 | Removes exactly the edges that a recorded identity names |
| Reconcile.Store.UpsertDependencies | packages/code-graph-io/src/code_graph_io/dependencies.py:175-196 | After the two loops every declared key has one row, stamped, with its record of the gathered versions; earlier dependency rows are kept, and no other row changes |
| Reconcile.Store.InsertUriEdge | packages/code-graph-io/src/code_graph_io/dependencies.py:62-71 | Succeeds exactly if both ends have a row; then the edge of that identity is there without attributes, even if it was there with some, and every other edge is as before; otherwise nothing changes |
| Reconcile.Store.LinkImplementations | packages/code-graph-io/src/code_graph_io/dependencies.py:200-203 | The first edge loop records and inserts exactly the implementations of every declared key, or some end is missing |
| Reconcile.Store.LinkOneUse | packages/code-graph-io/src/code_graph_io/dependencies.py:205-217 | One declaration adds its use and, for a package, an edge to each package behind the dependency |
| Reconcile.Store.LinkUses | packages/code-graph-io/src/code_graph_io/dependencies.py:205-217 | The second edge loop does so declaration by declaration, keeping what is recorded already |
| Reconcile.Store.InsertOwnedEdges | packages/code-graph-io/src/code_graph_io/dependencies.py:198-217 | The two loops succeed exactly if both ends of every owned identity exist, and then have recorded exactly these identities and added exactly their edges |
| Reconcile.Store.DeleteOrphans | packages/code-graph-io/src/code_graph_io/dependencies.py:115-121 | After one deletion for each URI, a row is gone exactly if it is a dependency row with one of the URIs that no edge touches, and every other row is as before |
| Reconcile.Store.ReconcileDependencies | packages/code-graph-io/src/code_graph_io/dependencies.py:124-227 | With an intact record and no foreign claim on an owned identity: refuses an unsupported ecosystem without effect; otherwise the store ends canonical for the inputs, with exactly their dependency rows and owned edges above untouched foreign tables, and the record is intact again |
| Reconcile.CanonicalUnique | packages/code-graph-io/src/code_graph_io/dependencies.py:124-227 | The canonical store for given inputs and foreign tables is unique up to the ids of dependency rows |
| ReconcileMeaning.DeclarationsMean | packages/code-graph-io/src/code_graph_io/dependencies.py:143-170 | The declarations are one for each supported use in some manifest or virtual root, and no others |
| ReconcileMeaning.RowsMean | packages/code-graph-io/src/code_graph_io/dependencies.py:175-196 | Besides the foreign rows there is a row for each dependency that a manifest asks for, with its name, ecosystem, registry address and versions, and no other |
| ReconcileMeaning.EdgesMean | packages/code-graph-io/src/code_graph_io/dependencies.py:198-217 | Besides the foreign edges, exactly those the manifests call for: a use of each declared dependency, an implementation by each distributable package whose name the index takes for the declared one, and a dependency of a consuming package on such a package |
| Reconcile.RunKeepsForeign | packages/code-graph-io/src/code_graph_io/dependencies.py:105-121 | No run of reconciliations changes what the record does not name |
| Reconcile.HistoryIndependent | packages/code-graph-io/src/code_graph_io/dependencies.py:124-227 | Every run of reconciliations ends where one reconciliation of the first store with the last inputs ends |
| Uris.DependencyUriInjective | packages/code-graph-io/src/code_graph_io/uri.py:54-60 | A dependency URI names one repository, ecosystem and name |
| Uris.DependencyPathInjective | packages/code-graph-io/src/code_graph_io/uri.py:63-65 | So does the synthetic path |
| Uris.DependencyUriApart | packages/code-graph-io/src/code_graph_io/uri.py:15-60 | Dependency URIs are never package or repository URIs |
| Uris.IdentifierOfPath | packages/code-graph-io/src/code_graph_io/uri.py:54-84 | The identifier read off a dependency's synthetic path is the rest of its URI |
| Uris.IdentifierMeaning | packages/code-graph-io/src/code_graph_io/uri.py:54-84 | A path has an identifier exactly if it is that of a dependency with nonempty parts free of separators, and then it is those parts |
| LogicalLines.ReadLogicalLines | packages/code-graph-io/src/code_graph_io/requirements.py:84-97 | The loop yields the joined lines, cleaned, without blank ones, and what is pending at the end |
| LogicalLines.ContinuedMeaning | packages/code-graph-io/src/code_graph_io/requirements.py:88-90 | A line is continued exactly if it is some text and a backslash, and then contributes that text |
| LogicalLines.JoinConserves | packages/code-graph-io/src/code_graph_io/requirements.py:84-97 | Joining loses and reorders no text but the continuation marks and ends one line at each line that is not continued |
| Requirements.Reader.TakeLine | packages/code-graph-io/src/code_graph_io/requirements.py:145-168 | A requirement goes to the list of its file's tag; only the root's includes and requirements are noted as its own |
| Requirements.Reader.Walk | packages/code-graph-io/src/code_graph_io/requirements.py:134-168 | Ends on every include graph; each file below is read once, unless visited before, and its lines are collected under its tag; every file read is finished, reachable around the visited set, and tagged development only if the walk was or an include on the way is |
| Requirements.ReadRequirements | packages/code-graph-io/src/code_graph_io/requirements.py:113-177 | Visited are exactly the skipped files and those reachable around them; a text is collected under a tag exactly if it is a requirement of a file visited under it, once per occurrence; a file is tagged as the way to it asks; direct includes are the root's include lines; and the root has requirements of its own exactly if it is read and one of its lines is one |
| Requirements.PicksAll | packages/code-graph-io/src/code_graph_io/requirements.py:144-168 | From one file every include, or every nonempty requirement, is collected once and in order |
| Requirements.IncludesMeaning | packages/code-graph-io/src/code_graph_io/requirements.py:145-160 | An include is followed exactly if the file can be read, has the line, and its target is on disk inside the repository |
| CodeSpans.Runs | scripts/convert_wikilinks.py:166 | The backtick runs are the maximal ones, all of them, in order |
| CodeSpans.MaskInlineCode | scripts/convert_wikilinks.py:158-182 | Keeps the length and every offset; blanks exactly the spans of the pairing rule of section 6.1 of CommonMark, each closed by the next run of its width |
| CodeSpans.PairsUnique | scripts/convert_wikilinks.py:158-182 | The pairing rule, stated without the scan, determines the spans |
| CodeSpans.MaskUnique | scripts/convert_wikilinks.py:158-182 | A line has exactly one masked form, so the scan's order does not matter |
| CodeSpans.MaskChanges | scripts/convert_wikilinks.py:172-182 | A changed character is a mask and lies between two runs of one width with none of that width between them |
| CodeSpans.RunSurvives | scripts/convert_wikilinks.py:172-181 | A run left in the masked line was a run of the line, outside every span: no run is cut |
| CodeSpans.WidthsDistinct | scripts/convert_wikilinks.py:172-181 | The runs left have pairwise distinct widths |
| CodeSpans.MaskIdempotent | scripts/convert_wikilinks.py:158-182 | Masking a masked line changes nothing |
| CodeSpans.DelinkMasksAll | scripts/convert_wikilinks.py:370-379 | Masking text written as inline code blanks every character of it exactly if there was any text |
| CodeSpans.DelinkMeaning | scripts/convert_wikilinks.py:370-379 | The fence is one backtick longer than the longest run, with a space inside exactly if the text starts or ends with a backtick |
| Renames.FileTree.MakeDirs | scripts/move_bundle.py:406 | Makes a directory and its parents, or fails because a file is in the way or for another reason; files are untouched |
| Renames.FileTree.RenameOne | scripts/move_bundle.py:398-411 | Renames only onto a vacant path, and otherwise leaves the files as they are; left alone, it stops only if the destination exists or its parents cannot be made, and then leaves the directories too |
| Renames.FileTree.RenameReserved | scripts/move_bundle.py:397-411 | Renames a prefix of the batch; left alone, it stops short only at an entry whose destination exists or cannot have its parents; every destination was vacant in its turn; no file is lost, overwritten or invented |
| Renames.FileTree.Prune | scripts/move_bundle.py:413-423 | Removes only empty directories above the sources, and left alone, leaves none of them empty |
| Renames.FileTree.UnrenameReserved | scripts/move_bundle.py:426-457 | Moves members back without overwriting anything; left alone, its outcome is that of moving each back whose place is free |
| Renames.FileTree.CarryReserved | scripts/move_bundle.py:510-528 | No outcome loses, overwrites or invents a file; a batch that lands is in place, with no empty directory left above its sources unless something keeps one; and when the rollback is left alone, an undone batch has its files back exactly if no landed destination is at or below a path an entry left and no directory is left in such a place.  Known beforehand: it has them back, whatever stopped it, if no destination of the batch is at or below one of its sources |
| Renames.ConservesRename | scripts/move_bundle.py:400-407 | Renaming onto a vacant path keeps a one-to-one relation between the files before and after, with their contents |
| Renames.RenamedAt | scripts/move_bundle.py:397-411 | Where every file is after a batch that landed, as one statement about paths |
| Renames.RollbackRestores | scripts/move_bundle.py:426-457 | Rolling back a clear batch restores every file and only those |
| Renames.RollbackStrands | scripts/move_bundle.py:446-457 | Rolling back any other batch does not: some member stays at its new path |
| Renames.RollbackIff | scripts/move_bundle.py:426-457 | For whatever part of a batch landed: rolling it back restores the files exactly if no landed destination is at or below a path that was left and no directory stands in such a place |
| Renames.GuardedRollback | scripts/move_bundle.py:355-361 | If no destination existed beforehand, exactly if no landed destination is strictly below a path that was left and no directory stands in such a place |
| Renames.UnclearBatchLands | scripts/move_bundle.py:397-457 | Although no destination exists beforehand: one index lands below the place another left, and the rollback does not restore the files |
| Dotted.Get | packages/config-io/src/config_io/dotted.py:20-27 | Reads the value at a key, or null if any segment is missing or not a mapping |
| Dotted.Has | packages/config-io/src/config_io/dotted.py:30-43 | Whether the key is present, a stored null included |
| Dotted.FindSet | packages/config-io/src/config_io/dotted.py:46-59 | After a write the key holds the value, everything above it is a mapping, and every incomparable key reads as before |
| Dotted.FindUnset | packages/config-io/src/config_io/dotted.py:62-83 | A removal reports whether the key was there, leaves it absent, and leaves every incomparable key alone |
| Dotted.UnsetUndoesSet | packages/config-io/src/config_io/dotted.py:46-83 | Removing a key just written gives back the mapping, order included, exactly if the key was absent and no prefix held a non-mapping or an empty mapping |
| Dotted.Merge | packages/config-io/src/config_io/dotted.py:86-106 | The item loop lays the overlay over the base; the lemmas below say what that reads |
| Dotted.LookupMerge | packages/config-io/src/config_io/dotted.py:99-106 | Every key of the layers reads as the overlay's value over the base's |
| Dotted.FindMerge | packages/config-io/src/config_io/dotted.py:86-106 | A dotted key reads the overlay's non-mapping if there is one, nothing below a non-mapping of the overlay, the base's value if the overlay lacks it, and else the recursive merge |
| Dotted.MergeTwice | packages/config-io/src/config_io/dotted.py:86-106 | Merging the same overlay again changes nothing, not even the key order |
| YamlMerge.MergeMapping | packages/config-io/src/config_io/store.py:53-57 | The two loops delete what the data lacks and assign every item; the lemmas below say what results |
| YamlMerge.MergeSequence | packages/config-io/src/config_io/store.py:60-71 | The item loop merges place by place when the lengths agree |
| YamlMerge.MergedIsEqual | packages/config-io/src/config_io/store.py:53-71 | Merging data into any loaded tree gives a tree whose value equals the data, by Python's `==` |
| Values.EqualMeaning | packages/config-io/src/config_io/store.py:69 | What that equality accepts: one scalar, or numbers of one value whatever their types; lists that agree at every place; and mappings that agree under every key, in any order |
| YamlMerge.NodeMeaning | packages/config-io/src/config_io/store.py:60-71 | What becomes of any node under any data: a scalar keeps its node exactly if it is written again or a boolean and an integer are equal; a mapping and a sequence of unchanged length keep their form; all else becomes the data |
| YamlMerge.MergedOrder | packages/config-io/src/config_io/store.py:53-57 | A merged mapping has the kept keys in the tree's order and then the new ones in the data's |
| YamlMerge.TrueKeepsOne | packages/config-io/src/config_io/store.py:69 | Equality is all that holds: writing `True` over `1` keeps the node and the value `1` |
| YamlMerge.MergeOwnValue | packages/config-io/src/config_io/store.py:60-71 | Merging a tree's own value keeps every node |
| YamlMerge.WriteKeeps | packages/config-io/src/config_io/store.py:53-71 | After one key is set and merged, every path incomparable to it keeps its node, form and all, and every mapping above it keeps its form and key order, the next segment perhaps added |
| PlainStore.PlainYamlIsLossless | packages/config-io/src/config_io/store.py:110-181 | The shipped store keeps every write, whatever the file held, given a loader of trees without repeated keys and a writer whose output loads to the same values |
| PlainStore.SomeStoreIsLossless | packages/config-io/src/config_io/store.py:110-181 | There are such a loader and writer |
| Registry.FindEntry | packages/config-io/src/config_io/entries.py:79-93 | An exact entry wins wherever it stands; else the first matching wildcard entry; nothing only if there is neither |
| Registry.WildMeaning | packages/config-io/src/config_io/entries.py:79-92 | An entry serves a key exactly if both have as many segments and agree at each but for a `*` |
| Registry.ResolveReports | packages/config-io/src/config_io/registry.py:43-73 | For leaf keys without an environment value: local with the base's value shadowed exactly if the overlay has a value, manifest exactly if only the base's shows, else the default |
| Registry.EnvironmentWins | packages/config-io/src/config_io/registry.py:54-73 | A value from the environment wins, and shadows what would be reported without it unless that is the default |
| Registry.ConfigStore.SetKey | packages/config-io/src/config_io/registry.py:150-215 | Which refusal is given, in the order of the checks, each exactly under its own condition; every refusal leaves the stored bytes as they were; a value is accepted exactly if the new bytes read and explicitly hold it, or hold nothing and it is the default; and if the store keeps the one write made, the key reads as the value and every incomparable key reads as before |
| Registry.ConfigStore.UnsetKey | packages/config-io/src/config_io/registry.py:218-233 | Accepted exactly if the entry may be written and the store reads, and else refused with the cause; writes only if the key was there; if the store keeps that one write, the key is absent afterwards and every incomparable key reads as before |
| Registry.LosslessKeeps | packages/config-io/src/config_io/registry.py:150-233 | A store that keeps every write keeps those that these two make |
| Affected.Dependents | scripts/affected_packages.py:80-83 | Inverts the dependency graph |
| Affected.ReverseClosure | scripts/affected_packages.py:79-91 | Ends, and returns the least set that holds the seeds and everything depending on a member, in whatever order the worklist is emptied |
| Affected.ClosureIsDependents | scripts/affected_packages.py:79-91 | That set is exactly the units with a chain of dependencies to a seed |
| Affected.Select | scripts/affected_packages.py:94-123 | In terms of the texts of the paths: the mode is a full check if some path asks for one, else package checks if some path lies in a listed package, else the repository's own, else nothing; in packages mode the units are exactly those that depend on a unit some path lies in, and otherwise none |
| Affected.ClassifyMeaning | scripts/affected_packages.py:106-121 | What one path asks for, read off its text, in both directions |
| Affected.MorePathsSelectMore | scripts/affected_packages.py:100-122 | Adding changed paths never lowers the mode, and drops no touched unit, no plugin check and, while the mode stays `packages`, no selected unit |
| Placement.ParseComposed | packages/code-wiki-okf/src/code_wiki_okf/placement.py:145-202 | Parsing a composed resource recovers kind, organization, repository, ecosystem and name or source path |
| Placement.ComposeParsed | packages/code-wiki-okf/src/code_wiki_okf/placement.py:145-202 | Only composed resources parse, each into slash-free nonempty parts that compose back to it |
| Placement.PageRoundTrip | packages/code-wiki-okf/src/code_wiki_okf/placement.py:106-133 | A page ID parses back to the kind, repository, ecosystem and slug it was made from, and a file's page never parses as an entity's |
| Placement.ParsedPageIsCanonical | packages/code-wiki-okf/src/code_wiki_okf/placement.py:106-133 | Only page IDs of entities parse, and each is the ID of what it parses to |
| Placement.SharedPage | packages/code-wiki-okf/src/code_wiki_okf/placement.py:290-314 | Two resources share a page exactly if they agree on kind, repository, and ecosystem and slug, or source path |
| Placement.SlugsCollide | packages/code-wiki-okf/src/code_wiki_okf/placement.py:245-249 | Two different names with one slug |
| Placement.ConceptIdMeaning | packages/code-wiki-okf/src/code_wiki_okf/placement.py:290-314 | A resource is placed exactly if it is one of its kind and each name on its page is a usable file name, and then on the page of its kind's lane, spelled out |
| Placement.SafeMeaning | packages/code-wiki-okf/src/code_wiki_okf/placement.py:225-242 | A path component is accepted exactly if it is a file name for every system: not empty, no dots alone, no control or reserved character, no trailing dot or space, and no device name before its first dot, in any letter case |
| Placement.SlugMeaning | packages/code-wiki-okf/src/code_wiki_okf/placement.py:245-249 | A slug is the name with every slash written as two underscores |

## Left out

- CompiledGlobExact: takes what a bracket class matches as a parameter, the same one on both sides; the contents of classes, with escapes and bad ranges, are not modelled.
- CompiledGlobExact: is about paths without a newline, because `.` does not match one; `DoubleStarAlone` shows the difference.
- DateFreeBasenameValid: for items at parsed paths; other basenames are covered by the refusal of `Basenames`.
- BuildHierarchy: refusals are a path and a kind, without their texts and order; white space is stripped as in ASCII.
- Collisions: of the items that share a target the code refuses all but the first in the order of their paths; here at least one of each two is.
- UpsertNode: rows are found by least id where the database returns its first row, and a new id is one above the greatest.
- SessionKeepsGood: what the emitters build is a predicate on records and edges; the emitters themselves are not modelled, and a deletion may take any rows and edges as long as foreign keys hold.
- ForeignKeptIff: the condition is about what may be written, so a batch that happens to write a row's own columns back counts as altering it for some line number.
- TierMeaning: a suffix test stands for `LIKE`, without its wildcards and case folding.
- ReconcileDependencies: assumes an intact ownership record and unique URIs; decoding the record, and rolling the transaction back when an endpoint is missing, are not modelled, and sets are taken in any order where the code sorts them.
- UpsertIdempotent: asks for consistent batches, as all emitted ones are (`EmittedBatchRepeats`); among other batches some repeat without effect and some do not, and which ones depends on the rows already stored.
- ReadRequirements: include targets come resolved and lines classified; decoding of files and the tests on file names are parameters.
- CarryReserved: takes the reserved members as a list of live files in their order, and whether the repair was refused as a parameter; what the repair itself writes is not modelled.
- SetIn: nested mappings are values, so writes in place, and the sharing of a nested mapping between a merge and its base, are not captured.
- MergeNode: numbers are booleans, integers and reals; dates and other YAML types are not modelled, and a node's form is one token.
- PlainYamlIsLossless: the YAML loader and writer are parameters; the text between them is not modelled.
- SetKey: `coerce` is a parameter, and writing the projection is not modelled.
- CanonicalConceptId: explicit fields of a context that conflict with its resource are not modelled, and upper-casing is that of ASCII.
- PrefixedBasename, Normalize, Collapse: letters are ASCII.
- `should_skip`, `sweep_skip_dir_files` and `resolve_file_imports`: lists of single branches over the file system.
- `expand`, `load_rules` and `prepare` of the bundle mover: what they refuse are facts about rules, and the renames are modelled for every batch.
- `plan_migration` after the targets: dependency edges, artifact names and document conversion.
- `imported_by`, `build_menu`, `describe_*` and the other queries: joins and grouping without recursion.
- `affected_directories`, `filesystem_member_identity` and `placement_rule`: prefixes, Unicode tables and a first-come table.
- Parsing of source code and of manifests, version control, locks and pragmas of the database, command lines and reports.
