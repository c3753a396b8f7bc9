/**
  When approved exceptions cover an advisory, and the evaluation of a whole report. An advisory is
  covered when every path to every installed node of its finding is excused by an active exception.
 */
module Coverage {
  import opened Prelude
  import opened AuditReport
  import opened Policy
  import opened RootPaths
  import opened Causes

  /** Everything a verdict depends on besides the finding itself. */
  datatype Context = Context(
    byName: map<string, Finding>,
    active: seq<Exception>,
    expired: seq<Exception>,
    graph: Option<ClosedGraph>,
    limits: Limits)

  // ---------------------------------------------------------------- advisories

  /** The first exception approved for exactly this path. */
  function FirstForPath(exceptions: seq<Exception>, packages: seq<string>): (r: Option<Exception>)
    ensures r.Some? ==> r.value in exceptions && r.value.path == packages
    ensures r.None? ==> forall e :: e in exceptions ==> e.path != packages
  {
    if exceptions == [] then None
    else if exceptions[0].path == packages then Some(exceptions[0])
    else FirstForPath(exceptions[1..], packages)
  }

  function WeighPath(advisory: string, matching: seq<Exception>, path: DependencyPath, ev: Evidence): Evidence {
    var match_ := FirstForPath(matching, path.packages);
    if match_.None? then ev.Object(PathNotCovered(advisory, path.packages))
    else if !path.developmentOnly then ev.Object(PathNotDevelopmentOnly(advisory, path.packages))
    else ev.Rely(match_.value.id)
  }

  function WeighPaths(advisory: string, matching: seq<Exception>, paths: seq<DependencyPath>, ev: Evidence): Evidence {
    if paths == [] then ev
    else WeighPath(advisory, matching, paths[|paths| - 1], WeighPaths(advisory, matching, paths[..|paths| - 1], ev))
  }

  function WeighNode(g: ClosedGraph, limits: Limits, advisory: string, candidates: seq<Exception>, node: string,
                     ev: Evidence): Evidence
  {
    var paths := Reported(g, node, limits);
    if paths.None? || paths.value == [] then ev.Object(PathsUnknown(advisory, node))
    else
      var version := g.entries[node].version;
      var matching := Filter(ForVersion(version), candidates);
      if matching == [] then ev.Object(OtherVersion(advisory, node, version))
      else WeighPaths(advisory, matching, paths.value, ev)
  }

  function WeighNodes(g: ClosedGraph, limits: Limits, advisory: string, candidates: seq<Exception>, nodes: seq<string>,
                      ev: Evidence): Evidence
  {
    if nodes == [] then ev
    else WeighNode(g, limits, advisory, candidates, nodes[|nodes| - 1],
                   WeighNodes(g, limits, advisory, candidates, nodes[..|nodes| - 1], ev))
  }

  function AdvisoryCoverage(ctx: Context, f: Finding, cause: AdvisoryCause): CauseCoverage {
    var id := AdvisoryIdFromUrl(cause.url);
    if id.None? then Uncovered(NotAnAdvisory(cause.url))
    else
      var advisory := id.value;
      if cause.severity == Critical then Uncovered(CriticalAdvisory(advisory))
      else if cause.dependency != f.name then Uncovered(NamesAnotherPackage(advisory, cause.dependency))
      else
        var candidates := Filter(About(advisory, f.name), ctx.active);
        if candidates == [] then
          var lapsed := Filter(About(advisory, f.name), ctx.expired);
          Uncovered(if lapsed != [] then ExceptionLapsed(advisory, lapsed[0].id) else NoActiveException(advisory))
        else if ctx.graph.None? then Uncovered(GraphUnavailable(advisory))
        else if f.nodes == [] then Uncovered(NoInstalledLocation(advisory))
        else WeighNodes(ctx.graph.value, ctx.limits, advisory, candidates, f.nodes, NOTHING).Verdict()
  }

  // ---------------------------------------------------------------- findings

  /** The cause graph of a report, its advisories judged by the exceptions. */
  function CausesOf(ctx: Context): CauseGraph {
    CauseGraph(ctx.byName, (f: Finding, cause: AdvisoryCause) => AdvisoryCoverage(ctx, f, cause))
  }

  datatype FindingStatus = Blocking | Excepted | Informational

  datatype EvaluatedFinding = EvaluatedFinding(
    finding: Finding,
    status: FindingStatus,
    exceptionIds: seq<string>,
    reasons: seq<Reason>)

  function EvaluateFinding(ctx: Context, f: Finding): EvaluatedFinding {
    if f.severity == Critical then EvaluatedFinding(f, Blocking, [], [CriticalFinding])
    else if f.severity != High then EvaluatedFinding(f, Informational, [], [])
    else
      var coverage := FindingCoverage(CausesOf(ctx), f);
      if coverage.covered then EvaluatedFinding(f, Excepted, coverage.exceptionIds, [])
      else EvaluatedFinding(f, Blocking, [], coverage.reasons)
  }

  function EvaluateAll(ctx: Context, findings: seq<Finding>): seq<EvaluatedFinding> {
    seq(|findings|, i requires 0 <= i < |findings| => EvaluateFinding(ctx, findings[i]))
  }

  /** `new Map(findings.map(f => [f.name, f]))`. */
  function ByName(findings: seq<Finding>): map<string, Finding> {
    if findings == [] then map[]
    else ByName(findings[..|findings| - 1])[findings[|findings| - 1].name := findings[|findings| - 1]]
  }

  predicate KeyedByName(byName: map<string, Finding>) {
    forall n | n in byName :: byName[n].name == n
  }

  lemma {:induction false} ByNameIsKeyed(findings: seq<Finding>)
    requires DistinctNames(findings)
    ensures KeyedByName(ByName(findings))
    ensures forall f :: f in findings ==> f.name in ByName(findings) && ByName(findings)[f.name] == f
    ensures forall n :: n in ByName(findings) ==> ByName(findings)[n] in findings
  {
    if findings != [] {
      var front, last := findings[..|findings| - 1], findings[|findings| - 1];
      assert findings == front + [last];
      ByNameIsKeyed(front);
      assert forall f :: f in front ==> f.name != last.name;
    }
  }

  function ContextOf(findings: seq<Finding>, exceptions: seq<Exception>, graph: Option<ClosedGraph>, now: int,
                     limits: Limits): Context
  {
    Context(ByName(findings), Filter(ActiveAt(now), exceptions), Filter(ExpiredAt(now), exceptions), graph, limits)
  }

  /** The ids relied on by the excepted findings. */
  function UsedIds(evaluated: seq<EvaluatedFinding>): set<string> {
    set e, id | e in evaluated && e.status == Excepted && id in e.exceptionIds :: id
  }

  datatype Evaluation = Evaluation(
    findings: seq<EvaluatedFinding>,
    unusedExceptions: seq<Exception>,
    expiredExceptions: seq<Exception>)

  /** The evaluation of a report, independent of the order in which findings are visited. */
  function Evaluate(findings: seq<Finding>, exceptions: seq<Exception>, graph: Option<ClosedGraph>, now: int,
                    limits: Limits): Evaluation
  {
    var ctx := ContextOf(findings, exceptions, graph, now, limits);
    var evaluated := EvaluateAll(ctx, findings);
    Evaluation(evaluated, Filter(NotAmong(UsedIds(evaluated)), ctx.active), ctx.expired)
  }
}
