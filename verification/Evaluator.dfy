/**
  The evaluation as the program performs it: one pass over the findings, with coverage memoised by
  finding name and cycles caught by the set of names being visited. Results cached in the middle of
  a cycle are reused later; each still equals the coverage defined without memo or visiting set.
 */
module Evaluator {
  import opened Prelude
  import opened AuditReport
  import opened Policy
  import opened RootPaths
  import opened Lockfile
  import opened Causes
  import opened Coverage
  import opened CauseLaws
  import opened AdvisoryLaws

  /** Every one of `names` inherits, over one or more steps, from `target`. */
  ghost predicate AllReach(c: CauseGraph, names: set<string>, target: string) {
    forall v :: v in names ==> exists chain ::
      IsChain(c, chain) && |chain| > 1 && chain[0] == v && chain[|chain| - 1] == target
  }

  lemma ReachThroughCause(c: CauseGraph, names: set<string>, from: string, cause: string)
    requires AllReach(c, names, from) && Inherits(c, from, cause)
    ensures AllReach(c, names + {from}, cause)
  {
    forall v | v in names + {from}
      ensures exists chain :: IsChain(c, chain) && |chain| > 1 && chain[0] == v && chain[|chain| - 1] == cause
    {
      var chain := [from];
      if v in names {
        chain :| IsChain(c, chain) && |chain| > 1 && chain[0] == v && chain[|chain| - 1] == from;
      } else {
        assert v == from;
      }
      LongerChain(c, chain, cause);
      assert IsChain(c, chain + [cause]) && (chain + [cause])[|chain|] == cause;
    }
  }

  /** Meeting a name that is still being visited means a cycle, and a cycle is never covered. */
  lemma VisitingAgainIsUncovered(c: CauseGraph, names: set<string>, name: string)
    requires AllReach(c, names, name) && name in names
    ensures !Covered(c, name)
  {
    var chain :| IsChain(c, chain) && |chain| > 1 && chain[0] == name && chain[|chain| - 1] == name;
    CycleHasNoDerivation(c, |c.byName|, chain);
  }

  ghost predicate MemoIsContextFree(c: CauseGraph, memo: map<string, CauseCoverage>) {
    forall n :: n in memo ==> n in c.byName && memo[n] == FindingCoverage(c, c.byName[n])
  }

  /** The verdict on a finding when nothing is known about where the traversal came from. */
  ghost predicate Decides(c: CauseGraph, name: string, v: CauseCoverage) {
    if Covered(c, name) then v == CauseCoverage(true, Covering(c, name).value, [])
    else !v.covered && v.exceptionIds == [] && v.reasons != []
  }

  lemma FindingCoverageDecides(c: CauseGraph, name: string)
    requires SoundJudge(c) && name in c.byName
    ensures Decides(c, name, FindingCoverage(c, c.byName[name]))
  {
    CoverageIsFixedPoint(c, name);
  }

  lemma WeighOneMore(c: CauseGraph, f: Finding, via: seq<Cause>, i: nat)
    requires i < |via|
    ensures WeighCauses(c, f, via[..i + 1]) ==
            Evidence(InsertAll(WeighCauses(c, f, via[..i]).ids, CauseVerdict(c, f, via[i]).exceptionIds),
                     WeighCauses(c, f, via[..i]).reasons + CauseVerdict(c, f, via[i]).reasons)
  {
    assert via[..i + 1][..i] == via[..i];
  }

  class AuditEvaluator {
    const byName: map<string, Finding>
    const active: seq<Exception>
    const expired: seq<Exception>
    const graph: LockfileGraph?
    const limits: Limits
    ghost const ctx: Context
    ghost const causes: CauseGraph
    var memo: map<string, CauseCoverage>
    var visiting: set<string>

    ghost predicate Valid()
      reads this, if graph == null then {} else {graph}
    {
      && KeyedByName(byName)
      && ctx.byName == byName && ctx.active == active && ctx.expired == expired && ctx.limits == limits
      && (if graph == null then ctx.graph == None else graph.Valid() && ctx.graph == Some(graph.Model()))
      && causes == CausesOf(ctx) && SoundJudge(causes)
      && MemoIsContextFree(causes, memo)
      && visiting <= byName.Keys
    }

    /** Between two top-level findings. */
    ghost predicate Idle()
      reads this, if graph == null then {} else {graph}
    {
      Valid() && visiting == {}
    }

    constructor (findings: seq<Finding>, exceptions: seq<Exception>, graph: LockfileGraph?,
                 ghost g: Option<ClosedGraph>, now: int, limits: Limits)
      requires DistinctNames(findings)
      requires if graph == null then g == None else graph.Valid() && g == Some(graph.Model())
      ensures Idle()
      ensures ctx == ContextOf(findings, exceptions, g, now, limits)
    {
      byName := ByName(findings);
      active := Filter(ActiveAt(now), exceptions);
      expired := Filter(ExpiredAt(now), exceptions);
      this.graph := graph;
      this.limits := limits;
      ctx := ContextOf(findings, exceptions, g, now, limits);
      causes := CausesOf(ContextOf(findings, exceptions, g, now, limits));
      memo := map[];
      visiting := {};
      new;
      JudgeIsSound(ctx);
      ByNameIsKeyed(findings);
    }

    method CoverAdvisory(finding: Finding, cause: AdvisoryCause) returns (c: CauseCoverage)
      requires Valid()
      ensures c == AdvisoryCoverage(ctx, finding, cause)
    {
      var id := AdvisoryIdFromUrl(cause.url);
      if id.None? {
        return Uncovered(NotAnAdvisory(cause.url));
      }
      var advisory := id.value;
      if cause.severity == Critical {
        return Uncovered(CriticalAdvisory(advisory));
      }
      if cause.dependency != finding.name {
        return Uncovered(NamesAnotherPackage(advisory, cause.dependency));
      }
      var candidates := Filter(About(advisory, finding.name), active);
      if candidates == [] {
        var lapsed := Filter(About(advisory, finding.name), expired);
        return Uncovered(if lapsed != [] then ExceptionLapsed(advisory, lapsed[0].id) else NoActiveException(advisory));
      }
      if graph == null {
        return Uncovered(GraphUnavailable(advisory));
      }
      if finding.nodes == [] {
        return Uncovered(NoInstalledLocation(advisory));
      }
      ghost var g := ctx.graph.value;
      var ev := NOTHING;
      for i := 0 to |finding.nodes|
        invariant ev == WeighNodes(g, limits, advisory, candidates, finding.nodes[..i], NOTHING)
      {
        var node := finding.nodes[i];
        assert finding.nodes[..i + 1][..i] == finding.nodes[..i];
        ev := WeighInstalled(advisory, candidates, node, ev);
      }
      assert finding.nodes[..|finding.nodes|] == finding.nodes;
      return ev.Verdict();
    }

    method WeighInstalled(advisory: string, candidates: seq<Exception>, node: string, before: Evidence)
      returns (ev: Evidence)
      requires Valid() && graph != null
      ensures ev == WeighNode(ctx.graph.value, limits, advisory, candidates, node, before)
    {
      ev := before;
      var version := graph.Version(node);
      var paths := graph.PathsTo(node, limits);
      if version.None? || paths.None? || paths.value == [] {
        return ev.Object(PathsUnknown(advisory, node));
      }
      var matching := Filter(ForVersion(version.value), candidates);
      if matching == [] {
        return ev.Object(OtherVersion(advisory, node, version.value));
      }
      for i := 0 to |paths.value|
        invariant ev == WeighPaths(advisory, matching, paths.value[..i], before)
      {
        var path := paths.value[i];
        assert paths.value[..i + 1][..i] == paths.value[..i];
        var match_ := FirstForPath(matching, path.packages);
        if match_.None? {
          ev := ev.Object(PathNotCovered(advisory, path.packages));
        } else if !path.developmentOnly {
          ev := ev.Object(PathNotDevelopmentOnly(advisory, path.packages));
        } else {
          ev := ev.Rely(match_.value.id);
        }
      }
      assert paths.value[..|paths.value|] == paths.value;
    }

    /** Covers one cause of a finding that is being visited. */
    method CoverCause(finding: Finding, cause: Cause) returns (c: CauseCoverage)
      requires Valid() && finding.name in visiting && byName[finding.name] == finding && cause in finding.via
      requires AllReach(causes, visiting - {finding.name}, finding.name)
      modifies this`memo, this`visiting
      ensures Valid() && visiting == old(visiting)
      ensures c == CauseVerdict(causes, finding, cause)
      decreases byName.Keys - visiting, 1
    {
      match cause {
        case Advisory(advisory) =>
          c := CoverAdvisory(finding, advisory);
        case Inherited(name) =>
          if name !in byName {
            return Uncovered(CauseMissing(name));
          }
          ReachThroughCause(causes, visiting - {finding.name}, finding.name, name);
          assert visiting - {finding.name} + {finding.name} == visiting;
          var inherited := CoverFinding(byName[name]);
          c := if inherited.covered then inherited else inherited.(reasons := [NotFullyCovered(name)]);
      }
    }

    /** Whatever was cached or is being visited, the answer is the context-free coverage of the finding. */
    method CoverFinding(finding: Finding) returns (c: CauseCoverage)
      requires Valid() && finding.name in byName && byName[finding.name] == finding
      requires AllReach(causes, visiting, finding.name)
      modifies this`memo, this`visiting
      ensures Valid() && visiting == old(visiting)
      ensures Decides(causes, finding.name, c)
      ensures finding.name !in visiting ==> c == FindingCoverage(causes, finding)
      decreases byName.Keys - visiting, 0
    {
      FindingCoverageDecides(causes, finding.name);
      if finding.name in memo {
        return memo[finding.name];
      }
      if finding.name in visiting {
        VisitingAgainIsUncovered(causes, visiting, finding.name);
        return Uncovered(CyclicCause(finding.name));
      }
      ghost var before := visiting;
      visiting := visiting + {finding.name};
      assert visiting - {finding.name} == before;
      var ids: seq<string> := [];
      var reasons: seq<Reason> := [];
      for i := 0 to |finding.via|
        invariant Valid() && visiting == before + {finding.name}
        invariant Evidence(ids, reasons) == WeighCauses(causes, finding, finding.via[..i])
      {
        var coverage := CoverCause(finding, finding.via[i]);
        WeighOneMore(causes, finding, finding.via, i);
        ids := InsertAll(ids, coverage.exceptionIds);
        reasons := reasons + coverage.reasons;
      }
      assert finding.via[..|finding.via|] == finding.via;
      visiting := visiting - {finding.name};
      c := if reasons == [] then CauseCoverage(true, ids, []) else CauseCoverage(false, [], reasons);
      memo := memo[finding.name := c];
    }

    method EvaluateOne(finding: Finding) returns (e: EvaluatedFinding)
      requires Idle() && finding.name in byName && byName[finding.name] == finding
      modifies this`memo, this`visiting
      ensures Idle()
      ensures e == EvaluateFinding(ctx, finding)
    {
      if finding.severity == Critical {
        return EvaluatedFinding(finding, Blocking, [], [CriticalFinding]);
      }
      if finding.severity != High {
        return EvaluatedFinding(finding, Informational, [], []);
      }
      var coverage := CoverFinding(finding);
      if coverage.covered {
        return EvaluatedFinding(finding, Excepted, coverage.exceptionIds, []);
      }
      return EvaluatedFinding(finding, Blocking, [], coverage.reasons);
    }
  }

  method EvaluateAuditReport(findings: seq<Finding>, exceptions: seq<Exception>, graph: LockfileGraph?,
                             ghost g: Option<ClosedGraph>, now: int, limits: Limits)
    returns (e: Evaluation)
    requires DistinctNames(findings)
    requires if graph == null then g == None else graph.Valid() && g == Some(graph.Model())
    ensures e == Evaluate(findings, exceptions, g, now, limits)
  {
    var evaluator := new AuditEvaluator(findings, exceptions, graph, g, now, limits);
    ghost var ctx := evaluator.ctx;
    ByNameIsKeyed(findings);
    var evaluated: seq<EvaluatedFinding> := [];
    var used: set<string> := {};
    for i := 0 to |findings|
      invariant evaluator.Idle()
      invariant evaluated == EvaluateAll(ctx, findings[..i])
      invariant used == UsedIds(evaluated)
    {
      var one := evaluator.EvaluateOne(findings[i]);
      UsedByOneMore(evaluated, one);
      EvaluateOneMore(ctx, findings, i);
      if one.status == Excepted {
        used := used + Elements(one.exceptionIds);
      }
      evaluated := evaluated + [one];
    }
    assert findings[..|findings|] == findings;
    return Evaluation(evaluated, Filter(NotAmong(used), evaluator.active), evaluator.expired);
  }

  lemma EvaluateOneMore(ctx: Context, findings: seq<Finding>, i: nat)
    requires i < |findings|
    ensures EvaluateAll(ctx, findings[..i + 1]) == EvaluateAll(ctx, findings[..i]) + [EvaluateFinding(ctx, findings[i])]
  {
  }

  lemma UsedByOneMore(evaluated: seq<EvaluatedFinding>, one: EvaluatedFinding)
    ensures UsedIds(evaluated + [one]) ==
            UsedIds(evaluated) + if one.status == Excepted then Elements(one.exceptionIds) else {}
  {
  }
}
