# The dependency-security gate, modelled and proved

The repository's continuous-integration gate runs `npm audit`, reads a list of approved exceptions and
package-lock.json, and decides whether the build may proceed. This project models that gate: the report
parser, the exception policy with its schema, the lockfile dependency graph with its search for every path to a package,
the memoised evaluation of findings over the graph of their causes, the retry loop and the final decision.
It proves what the comments in the code promise: the path search is exhaustive or reports nothing, results
cached in the middle of a cycle of causes are still right, the gate fails closed, and nothing it accepts is
reachable from the runtime dependencies of the application.

## How it is laid out

| file | what it holds |
|---|---|
| Prelude, Json | optional values, sequences used as insertion-ordered sets, JavaScript values |
| AuditReport, ReportLaws, ReportRoundTrip | the report parser, what it accepts property by property, and reading back what is written |
| Policy, PolicySchema, PolicyLaws, PolicySchemaLaws, PathEntries | the exception policy and its rules; its field-level schema over JSON, what the schema promises, and how path entries split |
| Regex, PatternLaws | regular expressions and what they match; the recognisers of the schema and of advisory URLs decide theirs |
| Location, LocationLaws, NodeLookup | location strings, the nearest-`node_modules` lookup and its meaning over nested packages and workspaces; Node's own lookup, and when the two agree |
| DependencyGraph, RootPaths | the dependency relation, its inverse, and the enumeration of root paths |
| Lockfile, LockfileLaws | the class `LockfileGraph`, its loops, the budgeted search, and what a lockfile says once loaded |
| PathLaws, PathCounts, SearchLaws | the enumeration lists exactly the simple paths; walks with loops; how often a path is listed; what the search reports and counts as steps |
| Causes, CauseLaws, CauseIds, CauseComparisons | coverage over the cause graph, for any judgement of advisories |
| Coverage, AdvisoryLaws | coverage of an advisory by exceptions, evaluation of a report, what coverage guarantees |
| Evaluator | the evaluation with memo and visiting set |
| CoverageLaws, EvaluationLaws, ObjectionLaws | laws of whole evaluations; which exceptions are relied on, expired and unused; every reason why a finding blocks |
| Gate, GateLaws, RunLaws | the retry loop, the gate, what a passing gate proves, and what each situation leads to |
| Ci | the script that ends the build, with the program's own limits |
| LockfileScenarios, GateScenarios | families of lockfiles and whole runs written out in full: a path listed twice, an edge only Node's lookup gives, and a direct dependency from the files to the outcome |

Mutable state in the program is mutable here: `LockfileGraph` and `PathSearch` are classes whose fields the
loops fill, `AuditEvaluator` holds the memo and the visiting set, `AuditGateDeps` is the outside world. Each
method is proved equal to a function over values, and the laws are about those functions. Times are integer
milliseconds, and the limits (paths per node, search steps, audit attempts) are parameters, so every theorem
holds for all of them; `Ci` fixes them to the program's.

The functions the methods are proved equal to are in turn tied to statements that do not name them: the laws ending
in `Exactly` say in terms of JSON properties, fields, paths and times when each of them holds.

Four points where the code and a first reading of it differ:

- Reading a lockfile that lists a package as `null` throws an uncaught TypeError
  (src/lib/npm-audit-exceptions.ts:144). Not reading an unneeded lockfile therefore gives the same verdict as
  always reading it except exactly when the lockfile has the supported shape and lists a `null` package before
  any linked one (`GateLaws.ShortcutExactlyWhenReadable`); `GateLaws.ShortcutCanAvoidAnException` gives a
  concrete case. The gate still fails closed.
- A root path can be listed more than once. Let the root need `x`, let `x` need both `y` and
  `x/node_modules/y`, and nest `y` in `x`: both names lead to the same package
  (`LockfileScenarios.PathListedTwice`). Every path of a lockfile is listed exactly once if and only if no
  package that the root reaches without passing another declares that other under two names
  (`LockfileLaws.LoadedPathsListedOnceExactly`); with names that contain no `node_modules/` that is always so.
  By `AdvisoryLaws.CoveredExactlyWhenEveryPathApproved` a repeated path matters to no verdict except through the
  search budgets.
- The lookup is described as Node's (src/lib/npm-audit-exceptions.ts:124), but it jumps from package to package,
  where Node tries every directory on the way up that is not itself named `node_modules`: also the scope
  directory above a scoped package, and the directories between a workspace and the project. For every text the
  two agree if and only if no directory that only one of them tries has the dependency while no longer directory
  that both try has it (`NodeLookup.AgreesWithNodeExactly`, and `LockfileLaws.LookupsAreNodesExactly` for all
  declarations of a lockfile). In a lockfile whose locations are those npm writes, packages nested in the project
  under names that hold no `node_modules/`, they always agree, so the graph has exactly the edges of Node's lookup
  (`LockfileLaws.NpmLockfileRecordsNodesEdges`). `LockfileScenarios.GraphMissesNodesEdge` gives lockfiles that
  load although a package sits in a scope directory, and whose graph lacks an edge Node would follow.
- The evaluation relies on finding names being unique, which the parser guarantees
  (`AuditReport.AcceptedIsConsistent`); the evaluation is stated for such reports.

## Model

| member | source | states |
|---|---|---|
| AuditReport.ParseFinding | src/lib/npm-audit-report.ts:106-137 | a vulnerability entry yields exactly the finding it describes, and nothing when it is incomplete |
| AuditReport.ParseVia | src/lib/npm-audit-report.ts:120-127 | the causes of an entry are read in order, all of them or none |
| AuditReport.ParseCounts | src/lib/npm-audit-report.ts:173-180 | the declared counts are read when every one is a non-negative integer, and refused otherwise |
| AuditReport.ParseListing | src/lib/npm-audit-report.ts:182-191 | all listed findings in order with their severities tallied, or nothing when one is malformed |
| AuditReport.ParsePayload | src/lib/npm-audit-report.ts:145-207 | the payload is a report exactly when some report is what it completely and consistently says, and then that report |
| ReportLaws.CauseExactly | src/lib/npm-audit-report.ts:77-104 | a value is read as a cause exactly when it is a non-empty text, or an object with text url, title and range, a severity, and its package under `dependency` or, when that is absent or null, under `name`; a source is kept only when it is a number or text |
| ReportLaws.FindingExactly | src/lib/npm-audit-report.ts:106-137 | an entry describes a finding exactly when it repeats its key as name, lists at least one cause, and has texts for nodes, effects (absent or null for none) and range |
| ReportLaws.ResultExactly | src/lib/npm-audit-report.ts:145-207 | the parser yields a report exactly when version, listing and metadata say it and every declared count is the number of findings listed with that severity |
| AuditReport.AcceptedIsConsistent | src/lib/npm-audit-report.ts:193-206 | an accepted report has unique names, a cause for every finding, per-severity counts equal to its findings and a matching total |
| AuditReport.PartialReportIsUnavailable | src/lib/npm-audit-report.ts:139-144 | deleting any listed vulnerabilities from an accepted payload makes it unavailable |
| AuditReport.AdvisoryIdFromUrl | src/lib/npm-audit-report.ts:224-227 | an id is extracted exactly from the GitHub advisory URL of that id |
| PatternLaws.AdvisoryUrlExactly | src/lib/npm-audit-report.ts:224-227 | the id extracted is what follows `https://github.com/advisories/`, when it matches the regular expression |
| ReportRoundTrip.CauseRoundTrip | src/lib/npm-audit-report.ts:77-104 | a written cause is read back unchanged exactly when it is one the parser can produce |
| ReportRoundTrip.FindingRoundTrip | src/lib/npm-audit-report.ts:106-137 | a written finding describes the finding it was written from |
| ReportRoundTrip.ReportIsReadBack | src/lib/npm-audit-report.ts:145-207 | every consistent report, written as a payload, is accepted and read back unchanged |
| Policy.RecordRules | src/lib/npm-audit-exceptions.ts:48-68 | the refinement checks amount to: path ends in the exact package version and repeats nothing, window of at most 90 days, review by expiry |
| Policy.ParsePolicy | src/lib/npm-audit-exceptions.ts:89-107 | a document of typed records is a policy exactly when every record is approved by now and ids are unique; otherwise the whole document is invalid |
| PolicySchema.ParsePolicyPayload | src/lib/npm-audit-exceptions.ts:24-107 | a JSON value is a policy exactly when the schema types every record and the records it lists, which are then the policy, are approved and have distinct ids |
| PolicyLaws.RecordExactly | src/lib/npm-audit-exceptions.ts:24-47 | a value is a record exactly when its properties are the texts of a well-formed record and there are no others; it then says what those texts say |
| PolicyLaws.DocumentExactly | src/lib/npm-audit-exceptions.ts:70-75 | a value is a document exactly when it has schema version 1, a list of records and nothing else; its records are read in order |
| PolicyLaws.ValidPolicyExactly | src/lib/npm-audit-exceptions.ts:48-68 | records are a valid policy exactly when every path ends in name@version and repeats nothing, every window lies after a past approval and lasts at most 7776000000 ms, reviews are due by expiry, and ids differ |
| PatternLaws.TimestampExactly | src/lib/npm-audit-exceptions.ts:14 | the recogniser of timestamps decides their regular expression |
| PatternLaws.PackageNameExactly | src/lib/npm-audit-exceptions.ts:15 | the recogniser of package names decides their regular expression |
| PatternLaws.ExactVersionExactly | src/lib/npm-audit-exceptions.ts:16 | the recogniser of exact versions decides their regular expression |
| PatternLaws.PathEntryExactly | src/lib/npm-audit-exceptions.ts:17 | the recogniser of path entries decides their regular expression |
| PatternLaws.AdvisoryIdExactly | src/lib/npm-audit-exceptions.ts:28 | the recogniser of advisory ids decides their regular expression |
| PatternLaws.CveExactly | src/lib/npm-audit-exceptions.ts:29 | the recogniser of CVE numbers decides their regular expression |
| PatternLaws.ExceptionIdExactly | src/lib/npm-audit-exceptions.ts:26 | the recogniser of exception ids decides their regular expression |
| PatternLaws.ReferenceExactly | src/lib/npm-audit-exceptions.ts:40 | the recogniser of approval references decides their regular expression |
| PatternLaws.DayExactly | src/lib/npm-audit-exceptions.ts:44 | the recogniser of review days decides their regular expression |
| PatternLaws.ProseExactly | src/lib/npm-audit-exceptions.ts:33 | a rationale is accepted exactly when at least twenty characters run from its first to its last that is no white space |
| PolicySchemaLaws.RecordIsReadBack | src/lib/npm-audit-exceptions.ts:24-47 | a written record is typed exactly when each of its texts has the required form, and each part of the exception then comes from its own field |
| PolicySchemaLaws.DocumentIsReadBack | src/lib/npm-audit-exceptions.ts:70-75 | a written document is read back record by record when every record is well-formed, and refused whole otherwise |
| PolicySchemaLaws.OneFaultInvalidates | src/lib/npm-audit-exceptions.ts:84-88 | a proposed record, a missing approval, an approval in the future, or an unknown field in the document, a record, its package or its approval invalidates the whole policy |
| PolicySchemaLaws.DecodedPathsAreEntries | src/lib/npm-audit-exceptions.ts:32 | every path entry of a decoded policy has the required form |
| PathEntries.PathEntrySplits | src/lib/npm-audit-exceptions.ts:15-17 | an approved path entry is a package name and an exact version without '@', and splits in no other way with a non-empty name |
| PathEntries.EmptyNameEscapes | src/lib/npm-audit-exceptions.ts:15-17 | the empty name is possible exactly before a scope mark |
| LocationLaws.LookupFindsNearest | src/lib/npm-audit-exceptions.ts:174-187 | from a package nested in the project or in a workspace directory, the dependency is found in an enclosure exactly when that is the nearest one to have it installed, and not found exactly when none has |
| LocationLaws.EveryLocationIsNested | src/lib/npm-audit-exceptions.ts:174-187 | every location with whole path segments is that of packages nested in a directory, whatever names it was written from, so the law above covers it |
| NodeLookup.NodeDirectoriesExact | src/lib/npm-audit-exceptions.ts:123-127 | the directories Node tries are exactly those that hold the requiring one and are not named `node_modules` |
| NodeLookup.AgreesWithNodeExactly | src/lib/npm-audit-exceptions.ts:123-127 | for every installed set and text: the lookup gives Node's answer if and only if no directory tried by one of them only decides |
| NodeLookup.AgreesUnlessSkipping | src/lib/npm-audit-exceptions.ts:174-187 | in directories of a project or workspace the two differ exactly when the lookup skips a directory that Node finds the dependency in, and finds it in no longer one |
| NodeLookup.NpmLayoutAgrees | src/lib/npm-audit-exceptions.ts:123-127 | in a tree laid out as npm does the lookup is Node's, from every package |
| LocationLaws.EnclosingOfChild | src/lib/npm-audit-exceptions.ts:184-185 | one step of the lookup leaves exactly the innermost package |
| LocationLaws.ChildDeterminesName | src/lib/npm-audit-exceptions.ts:147 | two names without an embedded boundary never share a location |
| Lockfile.LockfileGraph.Resolve | src/lib/npm-audit-exceptions.ts:174-187 | the loop computes the lookup, for every string, and terminates |
| Lockfile.LockfileGraph.AddEntries | src/lib/npm-audit-exceptions.ts:143-157 | all entries are recorded in file order unless a linked or null package stops it; the first one decides |
| Lockfile.LockfileGraph.AddParents | src/lib/npm-audit-exceptions.ts:158-170 | for every location the recorded parents are its incoming edges, in order |
| Lockfile.Parse | src/lib/npm-audit-exceptions.ts:134-172 | a lockfile becomes the graph it stands for, is refused, or throws, as `Load` says |
| DependencyGraph.GraphOfInverts | src/lib/npm-audit-exceptions.ts:158-170 | the parents of a location are exactly the entries with a declared name that resolves to it, marked development-only exactly when the root names it only among its development dependencies |
| Lockfile.LoadedGraphInverts | src/lib/npm-audit-exceptions.ts:158-172 | a loaded graph is the exact inverse of the dependency relation |
| LockfileLaws.LoadExact | src/lib/npm-audit-exceptions.ts:134-146 | which lockfiles load and which end the run in an exception, both ways |
| LockfileLaws.LoadedEntries | src/lib/npm-audit-exceptions.ts:143-157 | the graph holds one entry per listed package, under its location, and nothing else |
| LockfileLaws.LockShapeExactly | src/lib/npm-audit-exceptions.ts:136-141 | a lockfile is supported exactly when its version is 2 or 3 and its packages hold a root entry that is not falsy |
| LockfileLaws.EntryReads | src/lib/npm-audit-exceptions.ts:148-155 | a package declares a name exactly when an object under the field has that key, or a list there has that index; development names count for the root only |
| LockfileLaws.EntryNames | src/lib/npm-audit-exceptions.ts:147-151 | the name of an entry is empty for the root, its own text if it has one, and otherwise what follows the last boundary of its location |
| LockfileLaws.LoadedEdgesExactly | src/lib/npm-audit-exceptions.ts:158-170 | every edge of a loaded lockfile, from the raw packages: a declared name that resolves there, development-only exactly from the root under no runtime name |
| LockfileLaws.RootRuntimeEdge | src/lib/npm-audit-exceptions.ts:154-165 | the root's runtime edges are its plain, optional and peer dependencies installed at the top level, even when also listed for development |
| LockfileLaws.UnnamedPackageIsNamedByLocation | src/lib/npm-audit-exceptions.ts:147 | a package without a name of its own is named after the last directory of its location |
| LockfileLaws.LookupsAreNodesExactly | src/lib/npm-audit-exceptions.ts:158-170 | all declared dependencies of a lockfile lead where Node finds them if and only if no declaration strays |
| LockfileLaws.NpmLockfileRecordsNodesEdges | src/lib/npm-audit-exceptions.ts:123-127 | in a loaded lockfile laid out as npm does the recorded edges are exactly those of Node's lookup |
| LockfileScenarios.DirectLockIsNpm | src/lib/npm-audit-exceptions.ts:134-172 | a lockfile of the root and one package loads and is laid out as npm does, so the law above is not empty |
| LockfileScenarios.GraphMissesNodesEdge | src/lib/npm-audit-exceptions.ts:184-185 | lockfiles that load although a package sits in a scope directory, and whose graph lacks an edge of Node's lookup |
| Lockfile.PathSearch.Walk | src/lib/npm-audit-exceptions.ts:201-225 | the recursive search either gives up because the whole exploration exceeds a budget, or has counted and found exactly what the unlimited exploration would |
| Lockfile.LockfileGraph.PathsTo | src/lib/npm-audit-exceptions.ts:194-229 | the result is all enumerated paths when both budgets suffice and nothing otherwise; never a partial list |
| PathLaws.EnumerationIsExact | src/lib/npm-audit-exceptions.ts:193-225 | the enumerated paths are exactly the simple root-to-location paths of the dependency relation |
| PathLaws.EveryWalkIsListed | src/lib/npm-audit-exceptions.ts:193-225 | every walk from the root, however it loops, has an enumerated path with the same first edge and the same end |
| PathCounts.ListedAsOftenAsDeclared | src/lib/npm-audit-exceptions.ts:160-168 | each simple path is listed exactly as often as its edges are declared |
| PathCounts.ListsEachPathOnceExactly | src/lib/npm-audit-exceptions.ts:160-225 | every simple path is listed exactly once if and only if no package reached without passing another declares that other under two names |
| LockfileLaws.LoadedPathsListedOnceExactly | src/lib/npm-audit-exceptions.ts:160-229 | the same condition, both ways, for every lockfile that loads |
| LockfileLaws.LoadedPathsAreListedOnce | src/lib/npm-audit-exceptions.ts:193-229 | the condition holds, and every path is listed once, when no declared name contains a directory boundary |
| LockfileScenarios.PathListedTwice | src/lib/npm-audit-exceptions.ts:160-168 | the condition can fail: for any two names, a lockfile that loads and lists a path at least twice |
| PathCounts.ReportedIsComplete | src/lib/npm-audit-exceptions.ts:213-228 | a non-null result has every path, stays within both budgets and is unchanged by larger ones |
| SearchLaws.ReportedExactly | src/lib/npm-audit-exceptions.ts:194-229 | nothing is reported exactly when the location is not installed or a budget is exceeded; otherwise exactly the simple root paths, each with the name@version of its packages, and development-only exactly when it starts with a development edge and every package on it is flagged |
| SearchLaws.StepsExactly | src/lib/npm-audit-exceptions.ts:199-207 | the search takes one step for every edge above a simple chain that climbs from the target without passing the root, and no more when no edge is recorded twice |
| AdvisoryLaws.CoveredExactlyWhenExcused | src/lib/npm-audit-exceptions.ts:272-333 | an advisory is covered exactly when every reported path to every listed node is development-only and approved for this advisory, package and version; a covered one relies on an active exception |
| AdvisoryLaws.CoveredExactlyWhenEveryPathApproved | src/lib/npm-audit-exceptions.ts:272-333 | over the dependency relation itself, both ways: every node is installed, within both budgets and reachable from the root, and every simple path to it starts with a development edge, passes only development packages and is approved by an active exception for this advisory, name, version and exact path |
| AdvisoryLaws.CoveredPathsAreDevelopment | src/lib/npm-audit-exceptions.ts:209-212 | on every simple root path to a node of a covered advisory, the first edge is a development edge and every package is flagged `dev` |
| AdvisoryLaws.CoveredIsNotRuntimeReachable | src/lib/npm-audit-exceptions.ts:306-328 | no walk from the root through a runtime, optional or peer dependency reaches a node of a covered advisory |
| AdvisoryLaws.CoveredNodeIsApprovedPackage | src/lib/npm-audit-exceptions.ts:306-328 | every node of a covered advisory is the finding's package at an approved version, and no path to it repeats a package version |
| AdvisoryLaws.AncestorIsApprovedPackage | src/lib/npm-audit-exceptions.ts:318-325 | under a decoded policy every installed package with a name on a path to a covered node has exactly the name and version of the approved entry at its position; for versions without '@' that holds under any policy |
| CauseLaws.CoveredExactlyWhenSoundlyCaused | src/lib/npm-audit-exceptions.ts:336-369 | a finding is covered exactly when no cycle, no missing cause and no uncovered advisory can be reached through its causes |
| CauseLaws.CycleHasNoDerivation | src/lib/npm-audit-exceptions.ts:341-343 | a finding that is among its own causes is never covered |
| CauseLaws.BoundedDerivationSuffices | src/lib/npm-audit-exceptions.ts:336-369 | coverage is a least fixed point: no derivation higher than the number of findings adds anything |
| CauseLaws.CoverageIsFixedPoint | src/lib/npm-audit-exceptions.ts:345-368 | a finding is covered exactly when weighing its causes raises no objection, with the same ids |
| Evaluator.AuditEvaluator.CoverAdvisory | src/lib/npm-audit-exceptions.ts:272-333 | the loops over nodes and paths compute the verdict on the advisory, in every branch |
| Evaluator.VisitingAgainIsUncovered | src/lib/npm-audit-exceptions.ts:341-343 | meeting a name that is still being visited happens only on a cycle, and such a finding is not covered |
| Evaluator.AuditEvaluator.CoverFinding | src/lib/npm-audit-exceptions.ts:335-369 | whatever is cached or being visited, the answer is the context-free coverage, every cached result too, and the visiting set is restored; it terminates |
| Evaluator.EvaluateAuditReport | src/lib/npm-audit-exceptions.ts:261-400 | the memoised pass computes the evaluation defined without memo or visiting set, with used, unused and expired exceptions |
| EvaluationLaws.ReportedExceptionsExactly | src/lib/npm-audit-exceptions.ts:395-399 | an exception is reported expired exactly when its time has come, unused exactly when it is active and no covered high finding relies on its id; both lists keep the order of the policy |
| EvaluationLaws.FindingsExactly | src/lib/npm-audit-exceptions.ts:371-393 | finding by finding: which are informational, which excepted, and on which ids each relies |
| ObjectionLaws.ReliedOnExactly | src/lib/npm-audit-exceptions.ts:318-332 | the ids a covered advisory relies on are exactly those of the first active exception approving some path |
| ObjectionLaws.ObjectionsExactly | src/lib/npm-audit-exceptions.ts:272-333 | an objection to an advisory is raised exactly when it applies: the first obstacle before the nodes are looked at, or everything wrong at every node |
| ObjectionLaws.FindingReasonsExactly | src/lib/npm-audit-exceptions.ts:345-393 | a blocking finding gives exactly the objections to its causes, or that it is critical |
| CauseIds.CoveringIdsExact | src/lib/npm-audit-exceptions.ts:345-368 | a covered finding reports exactly the ids some advisory reached through its causes relies on |
| CoverageLaws.CoverageIsNeverVacuous | src/lib/npm-audit-exceptions.ts:298-332 | a covered finding relies on at least one id, each of an active exception, and on a dependency graph |
| CoverageLaws.ExceptedMeansCovered | src/lib/npm-audit-exceptions.ts:371-393 | a finding is excepted exactly when it is high and covered, and blocking exactly when critical or high and not covered |
| CauseComparisons.CoverageIsMonotone | src/lib/npm-audit-exceptions.ts:336-369 | covering more advisories covers at least the same findings |
| CoverageLaws.AcceptanceIsMonotone | src/lib/npm-audit-exceptions.ts:109-111 | adding exceptions, or evaluating earlier, never withdraws an acceptance |
| CoverageLaws.OrderDoesNotMatter | src/lib/npm-audit-exceptions.ts:335-399 | reordering the findings changes no verdict, no unused and no expired exception |
| CoverageLaws.ExceptionsArePartitioned | src/lib/npm-audit-exceptions.ts:267-270 | used, unused and expired exceptions are disjoint, cover the policy and add up in number |
| CoverageLaws.GraphIsIrrelevant | src/lib/npm-audit-exceptions.ts:283-300 | without high findings or without exceptions the whole evaluation is the same for every graph |
| Gate.ObtainReport | src/lib/npm-audit-gate.ts:48-74 | the report is that of the first acceptable run, with exactly the calls, warnings and pauses that leads to |
| RunLaws.AcceptedRunExactly | src/lib/npm-audit-gate.ts:51-63 | a run yields a report exactly when it did not fail, printed a payload accepted as that report, and exited with 0, or with 1 while some listed finding is high or critical |
| RunLaws.CleanRunExitedWithZero | src/lib/npm-audit-gate.ts:59-60 | a clean outcome rests on a first acceptable run that exited with 0 and listed nothing high or critical |
| RunLaws.EffectsExactly | src/lib/npm-audit-gate.ts:48-74 | audits are run up to the first acceptable one or the limit, each but the last followed by a pause of five seconds more |
| Gate.FirstAccepted | src/lib/npm-audit-gate.ts:48-74 | the run chosen is acceptable and every run before it is not; none is chosen only when all are unacceptable |
| GateLaws.TotalBackoff | src/lib/npm-audit-gate.ts:68-71 | after k retries the pauses sum to 5000 * k(k+1)/2 ms |
| Gate.JudgeReport | src/lib/npm-audit-gate.ts:132-179 | outcome, evaluation, exit code and every warning once a report is obtained; the lockfile is read exactly when needed |
| Gate.RunUnderPolicy | src/lib/npm-audit-gate.ts:119-180 | under a valid policy: the verdict on first acceptable report and lockfile, with the exact number of audits, the exact pauses, all warnings in order, and one lockfile read exactly when a report was obtained and needs it |
| Gate.RunAuditGate | src/lib/npm-audit-gate.ts:99-180 | from the JSON of the policy: an invalid one ends the run with no audit, pause, lockfile read or warning; under a valid one the run shows the gate's verdict with exactly the audits, pauses, lockfile reads and warnings it calls for; exit code 0 exactly for the two passing outcomes and 1 otherwise |
| RunLaws.PolicyFileExactly | src/lib/npm-audit-gate.ts:103-116 | a policy file is valid exactly when it was read, is a document of the schema, and its records, which are then the policy, are valid |
| RunLaws.LockfileExactly | src/lib/npm-audit-gate.ts:135-150 | a lockfile yields a graph exactly when it was read, is supported and lists no linked or null package, and throws exactly when it lists a null one first |
| RunLaws.ReportOutcomesExactly | src/lib/npm-audit-gate.ts:152-179 | once a report is obtained: blocked exactly when not acceptable, clean exactly when nothing high or critical is listed, accepted otherwise |
| RunLaws.ExitCodeExactly | src/lib/npm-audit-gate.ts:94-98 | the exit code of a result is 0 exactly when the policy is valid, a report was obtained, the lockfile does not stop the run and every high finding has only approved causes with nothing critical; otherwise it is 1 |
| RunLaws.WarningsExactly | src/lib/npm-audit-gate.ts:158-163 | a warning is raised exactly when it is due: for each retried attempt, a needed lockfile that gave no graph, each expired exception and each active one nothing relies on |
| RunLaws.WarningsInOrder | src/lib/npm-audit-gate.ts:154-163 | warnings come in that order |
| Ci.RunCi | scripts/ci-npm-audit.ts:35-54 | with the limits of the program the script exits with 0 exactly when the policy is valid, a report was obtained, nothing is critical and every high finding has only approved causes, and with 1 otherwise; an invalid policy changes nothing, and a valid one runs exactly the audits, pauses and lockfile read due |
| GateLaws.OutcomeExact | src/lib/npm-audit-gate.ts:165-179 | which outcome an evaluation leads to, in terms of severities and coverage |
| GateLaws.PassesExactlyWhenCovered | src/lib/npm-audit-gate.ts:94-98 | the gate passes exactly when the policy is valid, a report was obtained, nothing is critical and every high finding is covered |
| GateLaws.PassesExactlyWhenAcceptable | src/lib/npm-audit-gate.ts:94-180 | from the policy JSON, the audit runs and the lockfile: the gate passes exactly when the policy is valid, a report was obtained, the lockfile does not stop the run, nothing is critical, and every chain of causes from a high finding repeats nothing, stays in the report and meets only advisories approved on every path |
| GateLaws.CleanExactlyWhenCountsAreZero | src/lib/npm-audit-gate.ts:178-179 | clean exactly when, under a valid policy, an obtained report counts no high and no critical finding |
| GateLaws.ShortcutExactlyWhenReadable | src/lib/npm-audit-gate.ts:132-150 | skipping the lockfile gives the verdict of always reading it, except exactly when it is unneeded under a valid policy and an obtained report, has the supported shape and lists a `null` package before any linked one |
| GateLaws.ShortcutCanAvoidAnException | src/lib/npm-audit-gate.ts:132-150 | that exceptional case exists |
| GateLaws.AcceptedRiskIsBounded | src/lib/npm-audit-exceptions.ts:56-63 | every excepted finding relies on ids of exceptions approved by now, not expired and at most 90 days long |
| GateLaws.AcceptanceEndsWithThePolicy | src/lib/npm-audit-exceptions.ts:109-111 | once every exception has expired nothing is accepted |
| GateLaws.NoGraphNoAcceptance | src/lib/npm-audit-gate.ts:135-150 | an unreadable, malformed or linked lockfile never leads to an acceptance |
| GateLaws.PassingGateKeepsRuntimeClear | src/lib/npm-audit-gate.ts:94-98 | when the gate passes, no advisory behind a high finding concerns a package reachable from the root's runtime dependencies, nor, in a lockfile laid out as npm does, one that Node's lookup reaches from them; and none is critical |
| GateScenarios.DirectDependencyVerdict | src/lib/npm-audit-gate.ts:132-179 | for a report of one high finding about a direct dependency: accepted exactly when the root names it for development, the package is flagged as development-only, the limits allow a search and an active exception approves its path; blocked otherwise |
| GateScenarios.FilesDecideVerdict | src/lib/npm-audit-gate.ts:99-180 | the same verdict from the JSON of the policy, the output of the first audit and the lockfile |
| GateScenarios.AcceptanceHappens | src/lib/npm-audit-gate.ts:171-177 | with the limits and attempts of the program, one concrete run is accepted |

## Left out

- Process spawning, file reading, sleeping and console output in scripts/ci-npm-audit.ts: the outside world is the oracle `AuditGateDeps`; `Ci.RunCi` has the exit status and the warnings only.
- JSON text and `Date.parse`: files and audit output arrive as JSON values, and dates are read by a given function that may fail.
- String lengths in the policy schema count characters; JavaScript counts UTF-16 units, which differs only outside the basic plane.
- The wording of reasons, warnings and lines, and the sorting of lines: reasons and warnings are kept as data, lines as the evaluation they print.
- The list of advisory ids kept with each evaluated finding: it only feeds the printed lines.
- Why a payload is unavailable or a policy invalid: only that it is.
- Evaluator.EvaluateAuditReport: stated for reports whose finding names are unique, which is every report the parser accepts; a caller that built a report with repeated names would see a result that depends on their order.
- Stack depth: the program's recursion is assumed not to exhaust the call stack.
