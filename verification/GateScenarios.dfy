/**
  A high finding about one direct dependency, from the files the gate reads to the outcome it shows: it is
  accepted exactly when the root names the package for development, the package is flagged as
  development-only, and an active exception approves it.
 */
module GateScenarios {
  import opened Prelude
  import opened Location
  import opened LocationLaws
  import opened DependencyGraph
  import opened RootPaths
  import opened Lockfile
  import opened LockfileScenarios
  import opened AuditReport
  import opened ReportRoundTrip
  import opened Policy
  import opened PolicySchema
  import opened PolicySchemaLaws
  import opened Causes
  import opened Coverage
  import opened AdvisoryLaws
  import opened Gate
  import opened GateLaws
  import Json

  // ---------------------------------------------------------------- the advisory

  /** A package whose only incoming edge comes from the root is found in one step, by one path. */
  lemma OnePath(g: ClosedGraph, at: string, development: bool)
    requires at in g.entries && g.incoming[at] == [ParentEdge("", development)]
    ensures PathsTo(g, at) == [RootPath(development, [at])] && StepsTo(g, at) == 1
  {
    var edges := g.incoming[at];
    assert edges[1..] == [];
    assert PathsVia(g, edges[1..], [at]) == [] && StepsVia(g, edges[1..], [at]) == 0;
    assert PathsThrough(g, edges[0], [at]) == [RootPath(development, [at])] && StepsThrough(g, edges[0], [at]) == 1;
  }

  ghost predicate ApprovedFor(e: Exception, advisory: string, name: string, version: string, now: int) {
    && now < e.expiresAt && e.advisory == advisory && e.packageName == name && e.packageVersion == version
    && e.path == [AtVersion(name, version)]
  }

  /** The node is excused exactly when the limits allow a search at all, both flags say development, and an
      exception approves the one path. */
  lemma DirectNodeExcused(g: ClosedGraph, limits: Limits, exceptions: seq<Exception>, at: string, development: bool)
    requires at in g.entries && g.incoming[at] == [ParentEdge("", development)]
    ensures NodeExcused(g, limits, exceptions, at) <==>
            && limits.maxSteps >= 1 && limits.maxPaths >= 1 && development && g.entries[at].dev
            && exists e :: e in exceptions && e.packageVersion == g.entries[at].version && e.path == [Label(g, at)]
  {
    OnePath(g, at, development);
    var path := Describe(g, RootPath(development, [at]));
    assert path == DependencyPath([Label(g, at)], development && g.entries[at].dev);
    assert DescribeAll(g, PathsTo(g, at)) == [path];
    assert PathExcused(Filter(ForVersion(g.entries[at].version), exceptions), path) <==>
           path.developmentOnly &&
           exists e :: e in exceptions && e.packageVersion == g.entries[at].version && e.path == path.packages;
  }

  // ---------------------------------------------------------------- the report

  function DirectCause(advisory: string, name: string): AdvisoryCause {
    AdvisoryCause(Json.Number(1.0), name, "", ADVISORY_PREFIX + advisory, High, "")
  }

  function DirectFinding(advisory: string, name: string): Finding {
    Finding(name, High, true, [Advisory(DirectCause(advisory, name))], [], "", [Child("", name)])
  }

  /** One high finding, about the package at the top level. */
  function DirectReport(advisory: string, name: string): Report {
    Report([DirectFinding(advisory, name)], Tally(0, 0, 0, 1, 0), 1)
  }

  lemma DirectReportIsConsistent(advisory: string, name: string)
    ensures Consistent(DirectReport(advisory, name))
    ensures RepresentableFinding(DirectFinding(advisory, name))
  {
    var f, counts := DirectFinding(advisory, name), Tally(0, 0, 0, 1, 0);
    assert [f][..0] == [];
    forall s: Severity ensures counts.At(s) == CountOf([f], s) {
      assert CountOf([f][..0], s) == 0;
      assert counts.At(s) == if s == High then 1 else 0;
    }
    assert Tallies(counts, [f]);
    assert f.via == [Advisory(DirectCause(advisory, name))];
  }

  /** The advisory of the report is covered exactly when the graph is there and excuses the node. */
  lemma DirectAdvisoryCovered(ctx: Context, advisory: string, name: string)
    requires IsAdvisoryId(advisory)
    ensures AdvisoryCoverage(ctx, DirectFinding(advisory, name), DirectCause(advisory, name)).covered <==>
            ctx.graph.Some?
              && NodeExcused(ctx.graph.value, ctx.limits, Filter(About(advisory, name), ctx.active), Child("", name))
  {
    var f, cause := DirectFinding(advisory, name), DirectCause(advisory, name);
    CoveredExactlyWhenExcused(ctx, f, cause);
    assert AdvisoryIdFromUrl(cause.url) == Some(advisory);
    assert f.nodes == [Child("", name)];
  }

  /** A report of one finding with one advisory is covered exactly when that advisory is. */
  lemma OneCauseCovered(c: CauseGraph, f: Finding, cause: AdvisoryCause)
    requires c.byName == map[f.name := f] && f.via == [Advisory(cause)]
    ensures Covered(c, f.name) <==> c.judge(f, cause).covered
  {
    assert f.via[..0] == [];
    assert |c.byName| == 1;
    assert DeriveCauses(c, 1, f, f.via[..0]) == Some([]);
    assert DeriveCause(c, 1, f, f.via[0]).Some? <==> c.judge(f, cause).covered;
    assert Derive(c, 1, f.name) == DeriveCauses(c, 1, f, f.via);
  }

  lemma OneFindingByName(f: Finding)
    ensures ByName([f]) == map[f.name := f]
  {
    assert [f][..0] == [];
    assert ByName([]) == map[];
  }

  lemma DirectOutcome(advisory: string, name: string, exceptions: seq<Exception>, graph: Option<ClosedGraph>, now: int,
                      limits: Limits)
    ensures var f, ctx := DirectFinding(advisory, name),
            ContextOf([DirectFinding(advisory, name)], exceptions, graph, now, limits);
            OutcomeOf(Evaluate([f], exceptions, graph, now, limits))
            == if AdvisoryCoverage(ctx, f, DirectCause(advisory, name)).covered then AcceptedWithExceptions else Blocked
  {
    var f, cause := DirectFinding(advisory, name), DirectCause(advisory, name);
    var ctx := ContextOf([f], exceptions, graph, now, limits);
    OneFindingByName(f);
    OneCauseCovered(CausesOf(ctx), f, cause);
    OutcomeExact([f], exceptions, graph, now, limits);
    assert f in [f];
  }

  // ---------------------------------------------------------------- the verdict

  /** Both flags say development, the limits allow a search at all, and an active exception approves the one path. */
  ghost predicate DirectlyAccepted(exceptions: seq<Exception>, advisory: string, name: string, version: string,
                                   development: bool, dev: bool, now: int, limits: Limits)
  {
    && development && dev && limits.maxSteps >= 1 && limits.maxPaths >= 1
    && exists e :: e in exceptions && ApprovedFor(e, advisory, name, version, now)
  }

  function DirectLock(name: string, version: string, development: bool, dev: bool): Text<Json.Value> {
    Contents(LockOf(DirectPackages(name, version, development, dev)))
  }

  lemma ActiveAmong(exceptions: seq<Exception>, advisory: string, name: string, version: string, now: int)
    ensures (exists e :: e in Filter(About(advisory, name), Filter(ActiveAt(now), exceptions))
                         && e.packageVersion == version && e.path == [AtVersion(name, version)]) <==>
            exists e :: e in exceptions && ApprovedFor(e, advisory, name, version, now)
  {
    var active := Filter(ActiveAt(now), exceptions);
    if e :| e in exceptions && ApprovedFor(e, advisory, name, version, now) {
      assert e in active && e in Filter(About(advisory, name), active);
    }
    var about := Filter(About(advisory, name), active);
    if e :| e in about && e.packageVersion == version && e.path == [AtVersion(name, version)] {
      assert e in active && ApprovedFor(e, advisory, name, version, now);
    }
  }

  lemma DirectCovered(exceptions: seq<Exception>, advisory: string, name: string, version: string, development: bool,
                      dev: bool, now: int, limits: Limits)
    requires Plain(name) && IsAdvisoryId(advisory)
    ensures var f, payload := DirectFinding(advisory, name), DirectLock(name, version, development, dev).value;
            && Load(payload).Graph?
            && (AdvisoryCoverage(ContextOf([f], exceptions, Some(Load(payload).graph), now, limits), f,
                                 DirectCause(advisory, name)).covered
                <==> DirectlyAccepted(exceptions, advisory, name, version, development, dev, now, limits))
  {
    DirectGraph(name, version, development, dev);
    var f, g := DirectFinding(advisory, name), Load(DirectLock(name, version, development, dev).value).graph;
    var ctx := ContextOf([f], exceptions, Some(g), now, limits);
    DirectAdvisoryCovered(ctx, advisory, name);
    DirectNodeExcused(g, limits, Filter(About(advisory, name), ctx.active), Child("", name), development);
    ActiveAmong(exceptions, advisory, name, version, now);
  }

  lemma DirectOutcomeWithoutGraph(advisory: string, name: string, now: int, limits: Limits)
    requires IsAdvisoryId(advisory)
    ensures OutcomeOf(Evaluate([DirectFinding(advisory, name)], [], None, now, limits)) == Blocked
  {
    DirectAdvisoryCovered(ContextOf([DirectFinding(advisory, name)], [], None, now, limits), advisory, name);
    DirectOutcome(advisory, name, [], None, now, limits);
  }

  lemma DirectOutcomeOfLock(exceptions: seq<Exception>, advisory: string, name: string, version: string,
                            development: bool, dev: bool, now: int, limits: Limits)
    requires Plain(name) && IsAdvisoryId(advisory)
    ensures ReadLock(DirectLock(name, version, development, dev)).Usable?
    ensures OutcomeOf(Evaluate([DirectFinding(advisory, name)], exceptions,
                               Some(ReadLock(DirectLock(name, version, development, dev)).graph), now, limits))
            == if DirectlyAccepted(exceptions, advisory, name, version, development, dev, now, limits)
               then AcceptedWithExceptions else Blocked
  {
    DirectCovered(exceptions, advisory, name, version, development, dev, now, limits);
    DirectOutcome(advisory, name, exceptions, Some(ReadLock(DirectLock(name, version, development, dev)).graph), now,
                  limits);
  }

  /** Under a valid policy a report with a high finding is judged by the graph, or by none when nothing is excepted. */
  lemma JudgedByGraph(exceptions: seq<Exception>, report: Report, lockText: Text<Json.Value>, now: int, limits: Limits)
    requires ValidPolicy(exceptions, now) && report.counts.high > 0 && ReadLock(lockText).Usable?
    ensures GateVerdict(Contents(Document(exceptions)), Some(report), lockText, now, limits).Decided?
    ensures GateVerdict(Contents(Document(exceptions)), Some(report), lockText, now, limits).outcome
            == OutcomeOf(Evaluate(report.findings, exceptions,
                                  if exceptions == [] then None else Some(ReadLock(lockText).graph), now, limits))
  {
  }

  /** A report of one high finding about a direct dependency, under a valid policy: the gate accepts it exactly
      when the dependency is for development only and approved, and blocks it otherwise. */
  lemma DirectDependencyVerdict(exceptions: seq<Exception>, advisory: string, name: string, version: string,
                                development: bool, dev: bool, now: int, limits: Limits)
    requires Plain(name) && IsAdvisoryId(advisory) && ValidPolicy(exceptions, now)
    ensures var verdict := GateVerdict(Contents(Document(exceptions)), Some(DirectReport(advisory, name)),
                                       DirectLock(name, version, development, dev), now, limits);
            verdict.Decided? && verdict.outcome ==
              if DirectlyAccepted(exceptions, advisory, name, version, development, dev, now, limits)
              then AcceptedWithExceptions else Blocked
  {
    DirectOutcomeOfLock(exceptions, advisory, name, version, development, dev, now, limits);
    JudgedByGraph(exceptions, DirectReport(advisory, name), DirectLock(name, version, development, dev), now, limits);
    if exceptions == [] {
      DirectOutcomeWithoutGraph(advisory, name, now, limits);
    }
  }

  // ---------------------------------------------------------------- from files

  /** An audit that reports vulnerabilities exits with status 1. */
  function RunReporting(report: Report): AuditRun
    requires DistinctNames(report.findings)
  {
    AuditRun(Payload(Json.Object(ReportFields(report))), Some(1), None)
  }

  lemma RunIsAccepted(report: Report)
    requires Consistent(report) && (forall f :: f in report.findings ==> RepresentableFinding(f))
             && report.counts.high > 0
    ensures AcceptedReport(RunReporting(report)) == Some(report)
  {
    ReportIsReadBack(report);
  }

  lemma FirstRunIsObtained(judge: Judgement, runs: nat -> AuditRun, from: nat, end: nat)
    requires from < end && judge(runs(from)).Some?
    ensures ObtainedReport(judge, runs, from, end) == judge(runs(from))
  {
  }

  lemma PolicyFileIsRead(t: RecordText, dates: Dates, now: int)
    requires IsWellFormed(t, dates) && Approved(ExceptionFor(t, dates), now)
    ensures DecodeText(Contents(Json.Object(DocumentFields([t]))), dates)
            == Contents(Document([ExceptionFor(t, dates)]))
    ensures ValidPolicy([ExceptionFor(t, dates)], now)
  {
    DocumentIsReadBack([t], dates);
    assert ExceptionsFor([t], dates) == [ExceptionFor(t, dates)];
  }

  /** The same verdict from the policy file, the output of the first audit and the lockfile. */
  lemma FilesDecideVerdict(t: RecordText, dates: Dates, runs: nat -> AuditRun, maxAttempts: nat, advisory: string,
                           name: string, version: string, development: bool, dev: bool, now: int, limits: Limits)
    requires Plain(name) && IsAdvisoryId(advisory) && maxAttempts >= 1
    requires IsWellFormed(t, dates) && Approved(ExceptionFor(t, dates), now)
    requires runs(0) == RunReporting(DirectReport(advisory, name))
    ensures var verdict := GateVerdict(DecodeText(Contents(Json.Object(DocumentFields([t]))), dates),
                                       ObtainedReport(AcceptedReport, runs, 0, maxAttempts),
                                       DirectLock(name, version, development, dev), now, limits);
            verdict.Decided? && verdict.outcome ==
              if DirectlyAccepted([ExceptionFor(t, dates)], advisory, name, version, development, dev, now, limits)
              then AcceptedWithExceptions else Blocked
  {
    DirectReportIsConsistent(advisory, name);
    RunIsAccepted(DirectReport(advisory, name));
    FirstRunIsObtained(AcceptedReport, runs, 0, maxAttempts);
    PolicyFileIsRead(t, dates, now);
    DirectDependencyVerdict([ExceptionFor(t, dates)], advisory, name, version, development, dev, now, limits);
  }

  // ---------------------------------------------------------------- one accepted run

  const SAMPLE_ADVISORY := "GHSA-aaaa-bbbb-cccc"

  const SAMPLE := RecordText(
    "npm-audit-2026-001", "approved", SAMPLE_ADVISORY, None, "a", "1.0.0", "development", ["a@1.0.0"],
    "Only the build runs it.", "It is never bundled or served.", "platform", "security", "2026-01-01T00:00:00Z",
    "https://example.org/1", "2026-02-01T00:00:00Z", "2026-01-15", ["The package is upgraded."])

  const JANUARY := 1_767_225_600_000

  /** The three dates of the sample, as milliseconds since the epoch. */
  ghost predicate ReadsSampleDates(dates: Dates) {
    && dates("2026-01-01T00:00:00Z") == Some(JANUARY) && dates("2026-02-01T00:00:00Z") == Some(JANUARY + 31 * DAY_MS)
    && dates("2026-01-15T00:00:00Z") == Some(JANUARY + 14 * DAY_MS)
  }

  lemma SampleIdentifiers()
    ensures IsExceptionId(SAMPLE.id) && IsAdvisoryId(SAMPLE_ADVISORY)
  {
  }

  lemma SampleApproval()
    ensures IsTimestamp(SAMPLE.approvedAt)
  {
  }

  lemma SampleExpiry()
    ensures IsTimestamp(SAMPLE.expiresAt)
  {
  }

  lemma SampleReview()
    ensures IsDay(SAMPLE.reviewBy) && SAMPLE.reviewBy + "T00:00:00Z" == "2026-01-15T00:00:00Z"
  {
  }

  lemma SampleVersion()
    ensures IsExactVersion("1.0.0") && IsPackageName("a") && IsPathEntry("a@1.0.0")
  {
    var v, entry := "1.0.0", "a@1.0.0";
    assert SplitsVersion(v, 1, 3, 5, 5) by {
      assert v[..1] == "1" && v[2..3] == "0" && v[4..5] == "0" && v[5..5] == "" && v[5..] == "";
    }
    assert IsBareName("a");
    assert entry[..1] == "a" && entry[2..] == v && entry[1] == '@';
  }

  lemma WholeWhenTrimmed(s: string)
    requires s != "" && !IsSpace(s[0]) && !IsSpace(s[|s| - 1])
    ensures Trim(s) == s
  {
  }

  lemma SampleTexts()
    ensures IsProse(SAMPLE.rationale) && IsProse(SAMPLE.exposureEvidence)
    ensures IsNonBlank(SAMPLE.owner) && IsNonBlank(SAMPLE.approvedBy) && IsNonBlank("The package is upgraded.")
    ensures IsReference(SAMPLE.reference)
  {
    WholeWhenTrimmed(SAMPLE.rationale);
    WholeWhenTrimmed(SAMPLE.exposureEvidence);
    WholeWhenTrimmed(SAMPLE.owner);
    WholeWhenTrimmed(SAMPLE.approvedBy);
    WholeWhenTrimmed("The package is upgraded.");
  }

  ghost predicate HasFormalParts(t: RecordText, dates: Dates) {
    && IsExceptionId(t.id) && t.status == "approved" && IsAdvisoryId(t.advisory) && t.cve.None?
    && IsPackageName(t.name) && IsExactVersion(t.version) && t.scope == "development"
    && |t.path| == 1 && IsPathEntry(t.path[0])
    && IsTimestamp(t.approvedAt) && dates(t.approvedAt).Some? && IsTimestamp(t.expiresAt) && dates(t.expiresAt).Some?
    && IsDay(t.reviewBy)
  }

  ghost predicate HasProse(t: RecordText) {
    && IsProse(t.rationale) && IsProse(t.exposureEvidence) && IsNonBlank(t.owner) && IsNonBlank(t.approvedBy)
    && IsReference(t.reference) && |t.removalConditions| == 1 && IsNonBlank(t.removalConditions[0])
  }

  lemma WellFormedInParts(t: RecordText, dates: Dates)
    requires HasFormalParts(t, dates) && HasProse(t)
    ensures IsWellFormed(t, dates)
  {
  }

  lemma SampleIsFormal(dates: Dates)
    requires ReadsSampleDates(dates)
    ensures HasFormalParts(SAMPLE, dates)
  {
    SampleIdentifiers();
    SampleApproval();
    SampleExpiry();
    SampleReview();
    SampleVersion();
  }

  lemma SampleIsWellFormed(dates: Dates)
    requires ReadsSampleDates(dates)
    ensures IsWellFormed(SAMPLE, dates)
  {
    SampleIsFormal(dates);
    SampleTexts();
    WellFormedInParts(SAMPLE, dates);
  }

  lemma SampleIsApproved(dates: Dates)
    requires ReadsSampleDates(dates)
    ensures Approved(ExceptionFor(SAMPLE, dates), JANUARY + DAY_MS)
    ensures ApprovedFor(ExceptionFor(SAMPLE, dates), SAMPLE_ADVISORY, "a", "1.0.0", JANUARY + DAY_MS)
  {
    SampleReview();
    assert AtVersion("a", "1.0.0") == "a@1.0.0";
  }

  /** With the limits and attempts the gate ships with, some run accepts a risk. */
  lemma AcceptanceHappens(dates: Dates, runs: nat -> AuditRun)
    requires ReadsSampleDates(dates) && runs(0) == RunReporting(DirectReport(SAMPLE_ADVISORY, "a"))
    ensures GateVerdict(DecodeText(Contents(Json.Object(DocumentFields([SAMPLE]))), dates),
                        ObtainedReport(AcceptedReport, runs, 0, MAX_AUDIT_ATTEMPTS),
                        DirectLock("a", "1.0.0", true, true), JANUARY + DAY_MS, LIMITS).Decided?
    ensures GateVerdict(DecodeText(Contents(Json.Object(DocumentFields([SAMPLE]))), dates),
                        ObtainedReport(AcceptedReport, runs, 0, MAX_AUDIT_ATTEMPTS),
                        DirectLock("a", "1.0.0", true, true), JANUARY + DAY_MS, LIMITS).outcome
                          == AcceptedWithExceptions
  {
    SampleIsWellFormed(dates);
    SampleIsApproved(dates);
    SampleIdentifiers();
    assert ExceptionFor(SAMPLE, dates) in [ExceptionFor(SAMPLE, dates)];
    FilesDecideVerdict(SAMPLE, dates, runs, MAX_AUDIT_ATTEMPTS, SAMPLE_ADVISORY, "a", "1.0.0", true, true,
                       JANUARY + DAY_MS, LIMITS);
  }
}
