/**
  What a passing gate proves. The gate passes exactly when nothing critical was reported and every
  high finding is covered; an acceptance rests on a loaded lockfile and on exceptions inside their
  approved window, and keeps every excepted advisory out of the runtime dependencies.
 */
module GateLaws {
  import opened Prelude
  import opened AuditReport
  import opened Policy
  import opened PolicySchema
  import opened DependencyGraph
  import opened RootPaths
  import opened Lockfile
  import opened PathLaws
  import opened LockfileLaws
  import opened Coverage
  import opened Causes
  import opened CauseLaws
  import opened AdvisoryLaws
  import opened CoverageLaws
  import opened Gate
  import Json

  /** The graph the evaluation is given. */
  function GraphUsed(report: Report, exceptions: seq<Exception>, lockText: Text<Json.Value>): Option<ClosedGraph> {
    if NeedsGraph(report, exceptions) && ReadLock(lockText).Usable? then Some(ReadLock(lockText).graph) else None
  }

  /** The lockfile has the supported shape and lists a `null` package before any linked one. */
  predicate HasNullFirst(lockText: Text<Json.Value>) {
    lockText.Contents? && ListsNullFirst(lockText.value)
  }

  /** Reading the lockfile ends the process. */
  predicate LockfileStops(report: Report, exceptions: seq<Exception>, lockText: Text<Json.Value>) {
    NeedsGraph(report, exceptions) && HasNullFirst(lockText)
  }

  lemma ThrowsExactly(lockText: Text<Json.Value>)
    ensures ReadLock(lockText).Throws? <==> HasNullFirst(lockText)
  {
    if lockText.Contents? {
      LoadExact(lockText.value);
    }
  }

  function ContextUsed(report: Report, exceptions: seq<Exception>, lockText: Text<Json.Value>, now: int,
                       limits: Limits): Context
  {
    ContextOf(report.findings, exceptions, GraphUsed(report, exceptions, lockText), now, limits)
  }

  // ---------------------------------------------------------------- fail closed

  lemma {:induction false} CountedWhenPresent(findings: seq<Finding>, f: Finding)
    requires f in findings
    ensures CountOf(findings, f.severity) > 0
  {
    var front, last := findings[..|findings| - 1], findings[|findings| - 1];
    assert findings == front + [last];
    if f in front {
      CountedWhenPresent(front, f);
    }
  }

  lemma {:induction false} PresentWhenCounted(findings: seq<Finding>, s: Severity)
    requires forall f :: f in findings ==> f.severity != s
    ensures CountOf(findings, s) == 0
  {
    if findings != [] {
      PresentWhenCounted(findings[..|findings| - 1], s);
    }
  }

  /** The three outcomes of an evaluation, in terms of findings and their coverage. */
  lemma OutcomeExact(findings: seq<Finding>, exceptions: seq<Exception>, graph: Option<ClosedGraph>, now: int,
                     limits: Limits)
    requires DistinctNames(findings)
    ensures var ctx := ContextOf(findings, exceptions, graph, now, limits);
            var outcome := OutcomeOf(Evaluate(findings, exceptions, graph, now, limits));
            && (outcome == Blocked <==>
                exists f :: f in findings
                  && (f.severity == Critical || (f.severity == High && !Covered(CausesOf(ctx), f.name))))
            && (outcome == Clean <==> forall f :: f in findings ==> f.severity != Critical && f.severity != High)
            && outcome in {Blocked, AcceptedWithExceptions, Clean}
  {
    var ctx := ContextOf(findings, exceptions, graph, now, limits);
    var evaluated := EvaluateAll(ctx, findings);
    forall i | 0 <= i < |findings|
      ensures evaluated[i].status == Blocking <==>
              findings[i].severity == Critical
                || (findings[i].severity == High && !Covered(CausesOf(ctx), findings[i].name))
      ensures evaluated[i].status == Excepted
              <==> findings[i].severity == High && Covered(CausesOf(ctx), findings[i].name)
    {
      ExceptedMeansCovered(findings, exceptions, graph, now, limits, findings[i]);
    }
    StatusExists(ctx, findings, Blocking);
    StatusExists(ctx, findings, Excepted);
  }

  lemma StatusExists(ctx: Context, findings: seq<Finding>, status: FindingStatus)
    ensures (exists e :: e in EvaluateAll(ctx, findings) && e.status == status) <==>
            exists i :: 0 <= i < |findings| && EvaluateAll(ctx, findings)[i].status == status
  {
  }

  /** The gate exits with success exactly when the policy is valid, a report was obtained, nothing in it is
      critical and every high finding is covered. */
  lemma PassesExactlyWhenCovered(policyText: Text<PolicyDocument>, obtained: Option<Report>, lockText: Text<Json.Value>,
                                 now: int, limits: Limits)
    requires obtained.Some? ==> Consistent(obtained.value)
    ensures var verdict := GateVerdict(policyText, obtained, lockText, now, limits);
            (verdict.Decided? && verdict.outcome in {Clean, AcceptedWithExceptions}) <==>
              && PolicyRead(policyText, now).Valid? && obtained.Some?
              && var report, exceptions := obtained.value, PolicyRead(policyText, now).exceptions;
                 && !LockfileStops(report, exceptions, lockText)
                 && forall f :: f in report.findings ==>
                      f.severity != Critical &&
                      (f.severity == High
                       ==> Covered(CausesOf(ContextUsed(report, exceptions, lockText, now, limits)), f.name))
  {
    ThrowsExactly(lockText);
    if PolicyRead(policyText, now).Valid? && obtained.Some? {
      var report, exceptions := obtained.value, PolicyRead(policyText, now).exceptions;
      OutcomeExact(report.findings, exceptions, GraphUsed(report, exceptions, lockText), now, limits);
    }
  }

  /** Every advisory of the finding is approved on every path. */
  ghost predicate OwnAdvisoriesApproved(ctx: Context, name: string) {
    && name in ctx.byName
    && forall a :: Advisory(a) in ctx.byName[name].via ==> EveryPathApproved(ctx, ctx.byName[name], a)
  }

  /** Every chain of causes from `name` repeats no finding, stays in the report and meets only advisories that
      are approved on every path. */
  ghost predicate ChainsApproved(ctx: Context, name: string) {
    forall chain :: IsChain(CausesOf(ctx), chain) && chain[0] == name ==>
      Distinct(chain) && OwnAdvisoriesApproved(ctx, chain[|chain| - 1])
  }

  lemma GroundedIsApproved(ctx: Context, name: string)
    requires ctx.graph.Some? ==> InvertsDependencies(ctx.graph.value)
    ensures Grounded(CausesOf(ctx), name) <==> OwnAdvisoriesApproved(ctx, name)
  {
    if name in ctx.byName {
      forall a
        ensures AdvisoryCoverage(ctx, ctx.byName[name], a).covered <==> EveryPathApproved(ctx, ctx.byName[name], a)
      {
        CoveredExactlyWhenEveryPathApproved(ctx, ctx.byName[name], a);
      }
    }
  }

  lemma CoveredExactlyWhenChainsApproved(ctx: Context, name: string)
    requires ctx.graph.Some? ==> InvertsDependencies(ctx.graph.value)
    ensures Covered(CausesOf(ctx), name) <==> ChainsApproved(ctx, name)
  {
    CoveredExactlyWhenSoundlyCaused(CausesOf(ctx), name);
    forall n ensures Grounded(CausesOf(ctx), n) <==> OwnAdvisoriesApproved(ctx, n) {
      GroundedIsApproved(ctx, n);
    }
  }

  /** Nothing critical, and every high finding is caused only by approved advisories. */
  ghost predicate IsAcceptable(ctx: Context, findings: seq<Finding>) {
    forall f :: f in findings ==> f.severity != Critical && (f.severity == High ==> ChainsApproved(ctx, f.name))
  }

  /** The gate passes. */
  predicate Passes(verdict: Verdict) {
    verdict.Decided? && verdict.outcome in {Clean, AcceptedWithExceptions}
  }

  lemma UsedGraphInverts(report: Report, exceptions: seq<Exception>, lockText: Text<Json.Value>)
    ensures GraphUsed(report, exceptions, lockText).Some? ==>
              InvertsDependencies(GraphUsed(report, exceptions, lockText).value)
  {
    if GraphUsed(report, exceptions, lockText).Some? {
      LoadedGraphInverts(lockText.value);
    }
  }

  lemma AcceptableExactly(report: Report, exceptions: seq<Exception>, lockText: Text<Json.Value>, now: int,
                          limits: Limits)
    ensures var ctx := ContextUsed(report, exceptions, lockText, now, limits);
            IsAcceptable(ctx, report.findings) <==>
            forall f :: f in report.findings ==>
              f.severity != Critical && (f.severity == High ==> Covered(CausesOf(ctx), f.name))
  {
    var ctx := ContextUsed(report, exceptions, lockText, now, limits);
    UsedGraphInverts(report, exceptions, lockText);
    forall f | f in report.findings ensures Covered(CausesOf(ctx), f.name) <==> ChainsApproved(ctx, f.name) {
      CoveredExactlyWhenChainsApproved(ctx, f.name);
    }
  }

  /** The whole gate, from the files and the audit runs: it passes exactly when the policy is valid, a report was
      obtained, the lockfile does not stop the run, nothing is critical, and every chain of causes from a high
      finding repeats nothing, stays in the report and meets only advisories approved on every path. */
  lemma PassesExactlyWhenAcceptable(policyText: Text<Json.Value>, dates: Dates, judge: Judgement, runs: nat -> AuditRun,
                                    from: nat, end: nat, lockText: Text<Json.Value>, now: int, limits: Limits)
    requires IsAcceptance(judge) && from <= end
    ensures var policy, obtained := PolicyRead(DecodeText(policyText, dates), now),
            ObtainedReport(judge, runs, from, end);
            Passes(GateVerdict(DecodeText(policyText, dates), obtained, lockText, now, limits)) <==>
              && policy.Valid? && obtained.Some?
              && !LockfileStops(obtained.value, policy.exceptions, lockText)
              && IsAcceptable(ContextUsed(obtained.value, policy.exceptions, lockText, now, limits),
                              obtained.value.findings)
  {
    var policy, obtained := PolicyRead(DecodeText(policyText, dates), now), ObtainedReport(judge, runs, from, end);
    if obtained.Some? {
      ObtainedIsConsistent(judge, runs, from, end);
    }
    PassesExactlyWhenCovered(DecodeText(policyText, dates), obtained, lockText, now, limits);
    if policy.Valid? && obtained.Some? {
      AcceptableExactly(obtained.value, policy.exceptions, lockText, now, limits);
    }
  }

  /** The outcome is clean exactly when the obtained report counts nothing high or critical. */
  lemma CleanExactlyWhenCountsAreZero(policyText: Text<PolicyDocument>, obtained: Option<Report>,
                                      lockText: Text<Json.Value>, now: int, limits: Limits)
    requires obtained.Some? ==> Consistent(obtained.value)
    ensures var verdict := GateVerdict(policyText, obtained, lockText, now, limits);
            (verdict.Decided? && verdict.outcome == Clean) <==>
              PolicyRead(policyText, now).Valid? && obtained.Some? &&
              obtained.value.counts.high == 0 && obtained.value.counts.critical == 0
  {
    ThrowsExactly(lockText);
    if PolicyRead(policyText, now).Valid? && obtained.Some? {
      var report, exceptions := obtained.value, PolicyRead(policyText, now).exceptions;
      OutcomeExact(report.findings, exceptions, GraphUsed(report, exceptions, lockText), now, limits);
      ZeroCounts(report);
    }
  }

  lemma ZeroCounts(report: Report)
    requires Consistent(report)
    ensures report.counts.high == 0 && report.counts.critical == 0 <==>
            forall f :: f in report.findings ==> f.severity != Critical && f.severity != High
  {
    assert report.counts.At(High) == CountOf(report.findings, High);
    assert report.counts.At(Critical) == CountOf(report.findings, Critical);
    forall f | f in report.findings ensures CountOf(report.findings, f.severity) > 0 {
      CountedWhenPresent(report.findings, f);
    }
    if forall f :: f in report.findings ==> f.severity != Critical && f.severity != High {
      PresentWhenCounted(report.findings, High);
      PresentWhenCounted(report.findings, Critical);
    }
  }

  // ---------------------------------------------------------------- the lockfile shortcut

  /** Not reading an unneeded lockfile gives the verdict of always reading it, except exactly when the policy is valid,
      a report was obtained, the lockfile is unneeded and it lists a `null` package before any linked one. */
  lemma ShortcutExactlyWhenReadable(policyText: Text<PolicyDocument>, obtained: Option<Report>,
                                    lockText: Text<Json.Value>, now: int, limits: Limits)
    requires obtained.Some? ==> Consistent(obtained.value)
    ensures GateVerdict(policyText, obtained, lockText, now, limits)
            == SimpleVerdict(policyText, obtained, lockText, now, limits)
            <==>
            !(PolicyRead(policyText, now).Valid? && obtained.Some? && HasNullFirst(lockText) &&
              !NeedsGraph(obtained.value, PolicyRead(policyText, now).exceptions))
  {
    ThrowsExactly(lockText);
    if PolicyRead(policyText, now).Valid? && obtained.Some? && !ReadLock(lockText).Throws? {
      var report, exceptions := obtained.value, PolicyRead(policyText, now).exceptions;
      if !NeedsGraph(report, exceptions) {
        assert report.counts.At(High) == CountOf(report.findings, High);
        GraphIsIrrelevant(report.findings, exceptions, None, GraphFrom(ReadLock(lockText)), now, limits);
      }
    }
  }

  /** A lockfile that lists a package as `null`. */
  const NULL_PACKAGE_LOCK := Json.Object([
    Json.Field("lockfileVersion", Json.Number(3.0)),
    Json.Field("packages", Json.Object([Json.Field("", Json.Object([])), Json.Field("node_modules/a", Json.Null)]))])

  const NO_FINDINGS := Report([], ZERO, 0)

  /** The exceptional case is real: under an empty policy and a clean report the gate passes, where always
      reading this lockfile would end in an uncaught exception. */
  lemma ShortcutCanAvoidAnException(now: int, limits: Limits)
    ensures SimpleVerdict(Contents(Document([])), Some(NO_FINDINGS), Contents(NULL_PACKAGE_LOCK), now, limits) == Crash
    ensures GateVerdict(Contents(Document([])), Some(NO_FINDINGS), Contents(NULL_PACKAGE_LOCK), now, limits) != Crash
  {
    var fields := [Json.Field("", Json.Object([])), Json.Field("node_modules/a", Json.Null)];
    assert fields[1..][0] == fields[1];
    assert FirstFault(fields[1..]) == Some(Crashed);
    assert FirstFault(fields) == Some(Crashed);
    var packages := Json.Object(fields);
    assert Json.Get(packages, "") == Json.Object([]);
    var top := NULL_PACKAGE_LOCK.fields;
    assert top[1..][0] == top[1] && top[1].key == "packages" && top[0].key == "lockfileVersion";
    assert Json.Get(NULL_PACKAGE_LOCK, "packages") == packages;
    assert Json.Get(NULL_PACKAGE_LOCK, "lockfileVersion") == Json.Number(3.0);
    assert Load(NULL_PACKAGE_LOCK) == Crashed;
    assert PolicyRead(Contents(Document([])), now) == Valid([]);
  }

  // ---------------------------------------------------------------- what an acceptance rests on

  /** The facts an accepting run establishes about one excepted finding. */
  lemma AcceptedFinding(policyText: Text<PolicyDocument>, report: Report, lockText: Text<Json.Value>, now: int,
                        limits: Limits, f: Finding)
    requires Consistent(report) && PolicyRead(policyText, now).Valid?
    requires f in report.findings && f.severity == High
    requires Covered(CausesOf(ContextUsed(report, PolicyRead(policyText, now).exceptions, lockText, now, limits)),
                     f.name)
    ensures var exceptions := PolicyRead(policyText, now).exceptions;
            var ctx := ContextUsed(report, exceptions, lockText, now, limits);
            && NeedsGraph(report, exceptions) && ReadLock(lockText).Usable?
            && ctx.graph == Some(ReadLock(lockText).graph)
            && Covering(CausesOf(ctx), f.name).value != []
            && forall id :: id in Covering(CausesOf(ctx), f.name).value ==> exists e :: e in ctx.active && e.id == id
  {
    var exceptions := PolicyRead(policyText, now).exceptions;
    var graph := GraphUsed(report, exceptions, lockText);
    ReportGivesCauses(report.findings, exceptions, graph, now, limits);
    CoverageIsNeverVacuous(ContextOf(report.findings, exceptions, graph, now, limits), f.name);
  }

  predicate InWindow(e: Exception, now: int) {
    e.approvedAt <= now < e.expiresAt <= e.approvedAt + MAX_EXCEPTION_DAYS * DAY_MS
  }

  /** Every exception relied on was approved in the past, has not expired and lasts at most 90 days. */
  lemma AcceptedRiskIsBounded(policyText: Text<PolicyDocument>, report: Report, lockText: Text<Json.Value>, now: int,
                              limits: Limits, f: Finding)
    requires Consistent(report) && PolicyRead(policyText, now).Valid? && f in report.findings
    requires !LockfileStops(report, PolicyRead(policyText, now).exceptions, lockText)
    ensures var exceptions := PolicyRead(policyText, now).exceptions;
            var e := EvaluateFinding(ContextUsed(report, exceptions, lockText, now, limits), f);
            e.status == Excepted ==>
              && ReadLock(lockText).Usable?
              && e.exceptionIds != []
              && forall id :: id in e.exceptionIds ==> exists x :: x in exceptions && x.id == id && InWindow(x, now)
  {
    var exceptions := PolicyRead(policyText, now).exceptions;
    var ctx := ContextUsed(report, exceptions, lockText, now, limits);
    ExceptedMeansCovered(report.findings, exceptions, GraphUsed(report, exceptions, lockText), now, limits, f);
    var e := EvaluateFinding(ctx, f);
    if e.status == Excepted {
      AcceptedFinding(policyText, report, lockText, now, limits, f);
      forall id | id in e.exceptionIds
        ensures exists x :: x in exceptions && x.id == id && InWindow(x, now)
      {
        var x :| x in ctx.active && x.id == id;
        assert Approved(x, now);
      }
    }
  }

  lemma {:induction false} NoneActive(exceptions: seq<Exception>, now: int)
    requires forall e :: e in exceptions ==> e.expiresAt <= now
    ensures Filter(ActiveAt(now), exceptions) == []
  {
    if exceptions != [] {
      NoneActive(exceptions[..|exceptions| - 1], now);
    }
  }

  lemma ExpiredPolicyCoversNothing(report: Report, exceptions: seq<Exception>, graph: Option<ClosedGraph>, now: int,
                                   limits: Limits, name: string)
    requires Consistent(report) && forall e :: e in exceptions ==> e.expiresAt <= now
    ensures !Covered(CausesOf(ContextOf(report.findings, exceptions, graph, now, limits)), name)
  {
    var ctx := ContextOf(report.findings, exceptions, graph, now, limits);
    ReportGivesCauses(report.findings, exceptions, graph, now, limits);
    NoneActive(exceptions, now);
    if Covered(CausesOf(ctx), name) {
      CoverageIsNeverVacuous(ctx, name);
    }
  }

  /** Where no high finding is covered, nothing is accepted. */
  lemma UncoveredIsNotAccepted(findings: seq<Finding>, exceptions: seq<Exception>, graph: Option<ClosedGraph>,
                               now: int, limits: Limits)
    requires DistinctNames(findings)
    requires forall f :: f in findings && f.severity == High ==>
               !Covered(CausesOf(ContextOf(findings, exceptions, graph, now, limits)), f.name)
    ensures OutcomeOf(Evaluate(findings, exceptions, graph, now, limits)) != AcceptedWithExceptions
  {
    OutcomeExact(findings, exceptions, graph, now, limits);
  }

  lemma ExpiredPolicyAcceptsNothing(report: Report, exceptions: seq<Exception>, graph: Option<ClosedGraph>, now: int,
                                    limits: Limits)
    requires Consistent(report) && forall e :: e in exceptions ==> e.expiresAt <= now
    ensures OutcomeOf(Evaluate(report.findings, exceptions, graph, now, limits)) != AcceptedWithExceptions
  {
    forall f | f in report.findings
      ensures !Covered(CausesOf(ContextOf(report.findings, exceptions, graph, now, limits)), f.name)
    {
      ExpiredPolicyCoversNothing(report, exceptions, graph, now, limits, f.name);
    }
    UncoveredIsNotAccepted(report.findings, exceptions, graph, now, limits);
  }

  /** Once every exception of a policy has expired, no run accepts anything under it. */
  lemma AcceptanceEndsWithThePolicy(exceptions: seq<Exception>, obtained: Option<Report>, lockText: Text<Json.Value>,
                                    now: int, limits: Limits)
    requires obtained.Some? ==> Consistent(obtained.value)
    requires forall e :: e in exceptions ==> e.expiresAt <= now
    ensures GateVerdict(Contents(Document(exceptions)), obtained, lockText, now, limits).Decided? ==>
            GateVerdict(Contents(Document(exceptions)), obtained, lockText, now, limits).outcome
            != AcceptedWithExceptions
  {
    ThrowsExactly(lockText);
    var policyText := Contents(Document(exceptions));
    if PolicyRead(policyText, now).Valid? && obtained.Some? && !LockfileStops(obtained.value, exceptions, lockText) {
      ExpiredPolicyAcceptsNothing(obtained.value, exceptions, GraphUsed(obtained.value, exceptions, lockText), now,
                                  limits);
    }
  }

  /** A lockfile that yields no graph leads to no acceptance. */
  lemma NoGraphNoAcceptance(policyText: Text<PolicyDocument>, obtained: Option<Report>, lockText: Text<Json.Value>,
                            now: int, limits: Limits)
    requires obtained.Some? ==> Consistent(obtained.value)
    requires !ReadLock(lockText).Usable?
    ensures GateVerdict(policyText, obtained, lockText, now, limits).Decided? ==>
            GateVerdict(policyText, obtained, lockText, now, limits).outcome != AcceptedWithExceptions
  {
    ThrowsExactly(lockText);
    if PolicyRead(policyText, now).Valid? && obtained.Some? {
      var report, exceptions := obtained.value, PolicyRead(policyText, now).exceptions;
      if !LockfileStops(report, exceptions, lockText) {
        forall f | f in report.findings && f.severity == High
          ensures !Covered(CausesOf(ContextUsed(report, exceptions, lockText, now, limits)), f.name)
        {
          if Covered(CausesOf(ContextUsed(report, exceptions, lockText, now, limits)), f.name) {
            AcceptedFinding(policyText, report, lockText, now, limits, f);
          }
        }
        UncoveredIsNotAccepted(report.findings, exceptions, None, now, limits);
      }
    }
  }

  /** End to end: when the gate passes, no advisory behind a high finding concerns a package that the lockfile
      makes reachable from the root's runtime dependencies. */
  lemma PassingGateKeepsRuntimeClear(policyText: Text<PolicyDocument>, report: Report, lockText: Text<Json.Value>,
                                     now: int, limits: Limits, f: Finding, chain: seq<string>, cause: AdvisoryCause,
                                     node: string)
    requires Consistent(report)
    requires GateVerdict(policyText, Some(report), lockText, now, limits).Decided?
    requires GateVerdict(policyText, Some(report), lockText, now, limits).outcome in {Clean, AcceptedWithExceptions}
    requires f in report.findings && f.severity == High
    requires var ctx := ContextUsed(report, PolicyRead(policyText, now).exceptions, lockText, now, limits);
             IsChain(CausesOf(ctx), chain) && chain[0] == f.name && chain[|chain| - 1] in ctx.byName &&
             Advisory(cause) in ctx.byName[chain[|chain| - 1]].via && node in ctx.byName[chain[|chain| - 1]].nodes
    ensures ReadLock(lockText).Usable?
    ensures !RuntimeReachable(ReadLock(lockText).graph.entries, node)
    ensures IsNpmLockfile(ReadLock(lockText).graph.entries)
            ==> !NodeRuntimeReachable(ReadLock(lockText).graph.entries, node)
    ensures cause.severity != Critical
  {
    PassesExactlyWhenCovered(policyText, Some(report), lockText, now, limits);
    var exceptions := PolicyRead(policyText, now).exceptions;
    var ctx := ContextUsed(report, exceptions, lockText, now, limits);
    AcceptedFinding(policyText, report, lockText, now, limits, f);
    LoadedGraphInverts(lockText.value);
    CoveredExactlyWhenSoundlyCaused(CausesOf(ctx), f.name);
    var g := ctx.byName[chain[|chain| - 1]];
    assert Grounded(CausesOf(ctx), chain[|chain| - 1]);
    CoveredIsNotRuntimeReachable(ctx, g, cause, node);
    CoveredExactlyWhenExcused(ctx, g, cause);
    var entries := ReadLock(lockText).graph.entries;
    if IsNpmLockfile(entries) && NodeRuntimeReachable(entries, node) {
      NodeReachableIsReachable(entries, node);
    }
  }

  // ---------------------------------------------------------------- retries

  function Sum(s: seq<nat>): nat {
    if s == [] then 0 else Sum(s[..|s| - 1]) + s[|s| - 1]
  }

  /** After k retries the gate has slept 5000 * k(k+1)/2 milliseconds. */
  lemma {:induction false} TotalBackoff(k: nat)
    ensures 2 * Sum(Backoff(k)) == BACKOFF_MS * k * (k + 1)
  {
    if k > 0 {
      TotalBackoff(k - 1);
      assert Backoff(k)[..k - 1] == Backoff(k - 1);
    }
  }
}
