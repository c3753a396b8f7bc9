/**
  Why an advisory is not covered, and what a covered one relies on: every objection raised is true of the
  situation, every objection that applies is raised, and each path relies on the first exception approving it.
 */
module ObjectionLaws {
  import opened Prelude
  import opened AuditReport
  import opened Policy
  import opened RootPaths
  import opened Causes
  import opened Coverage
  import opened EvaluationLaws

  // ---------------------------------------------------------------- one path

  /** The path relies on the exception with this id. */
  predicate PathRelies(matching: seq<Exception>, path: DependencyPath, id: string) {
    var found := FirstForPath(matching, path.packages);
    found.Some? && path.developmentOnly && found.value.id == id
  }

  /** The objection that the path raises. */
  predicate PathObjects(advisory: string, matching: seq<Exception>, path: DependencyPath, reason: Reason) {
    var approved := exists e :: e in matching && e.path == path.packages;
    || (!approved && reason == PathNotCovered(advisory, path.packages))
    || (approved && !path.developmentOnly && reason == PathNotDevelopmentOnly(advisory, path.packages))
  }

  lemma WeighPathAdds(advisory: string, matching: seq<Exception>, path: DependencyPath, ev: Evidence, id: string,
                      reason: Reason)
    ensures var r := WeighPath(advisory, matching, path, ev);
            && (id in r.ids <==> id in ev.ids || PathRelies(matching, path, id))
            && (reason in r.reasons <==> reason in ev.reasons || PathObjects(advisory, matching, path, reason))
  {
  }

  ghost predicate SomePathRelies(matching: seq<Exception>, paths: seq<DependencyPath>, id: string) {
    exists path :: path in paths && PathRelies(matching, path, id)
  }

  ghost predicate SomePathObjects(advisory: string, matching: seq<Exception>, paths: seq<DependencyPath>,
                                  reason: Reason)
  {
    exists path :: path in paths && PathObjects(advisory, matching, path, reason)
  }

  lemma {:induction false} WeighPathsAdd(advisory: string, matching: seq<Exception>, paths: seq<DependencyPath>,
                                         ev: Evidence, id: string, reason: Reason)
    ensures var r := WeighPaths(advisory, matching, paths, ev);
            && (id in r.ids <==> id in ev.ids || SomePathRelies(matching, paths, id))
            && (reason in r.reasons <==> reason in ev.reasons || SomePathObjects(advisory, matching, paths, reason))
  {
    if paths != [] {
      var front, last := paths[..|paths| - 1], paths[|paths| - 1];
      assert paths == front + [last];
      WeighPathsAdd(advisory, matching, front, ev, id, reason);
      WeighPathAdds(advisory, matching, last, WeighPaths(advisory, matching, front, ev), id, reason);
      assert SomePathRelies(matching, paths, id) <==>
             SomePathRelies(matching, front, id) || PathRelies(matching, last, id);
      assert SomePathObjects(advisory, matching, paths, reason) <==>
             SomePathObjects(advisory, matching, front, reason) || PathObjects(advisory, matching, last, reason);
    }
  }

  // ---------------------------------------------------------------- one node

  ghost predicate NodeRelies(g: ClosedGraph, limits: Limits, candidates: seq<Exception>, node: string, id: string) {
    var paths := Reported(g, node, limits);
    && paths.Some? && SomePathRelies(Filter(ForVersion(g.entries[node].version), candidates), paths.value, id)
  }

  ghost predicate NodeObjects(g: ClosedGraph, limits: Limits, advisory: string, candidates: seq<Exception>,
                              node: string, reason: Reason)
  {
    var paths := Reported(g, node, limits);
    if paths.None? || paths.value == [] then reason == PathsUnknown(advisory, node)
    else
      var version := g.entries[node].version;
      if forall e :: e in candidates ==> e.packageVersion != version
      then reason == OtherVersion(advisory, node, version)
      else SomePathObjects(advisory, Filter(ForVersion(version), candidates), paths.value, reason)
  }

  lemma WeighNodeAdds(g: ClosedGraph, limits: Limits, advisory: string, candidates: seq<Exception>, node: string,
                      ev: Evidence, id: string, reason: Reason)
    ensures var r := WeighNode(g, limits, advisory, candidates, node, ev);
            && (id in r.ids <==> id in ev.ids || NodeRelies(g, limits, candidates, node, id))
            && (reason in r.reasons <==>
                reason in ev.reasons || NodeObjects(g, limits, advisory, candidates, node, reason))
  {
    var paths := Reported(g, node, limits);
    if paths.Some? {
      var matching := Filter(ForVersion(g.entries[node].version), candidates);
      WeighPathsAdd(advisory, matching, paths.value, ev, id, reason);
      if matching != [] {
        assert matching[0] in matching;
      }
    }
  }

  ghost predicate SomeNodeRelies(g: ClosedGraph, limits: Limits, candidates: seq<Exception>, nodes: seq<string>,
                                 id: string)
  {
    exists node :: node in nodes && NodeRelies(g, limits, candidates, node, id)
  }

  ghost predicate SomeNodeObjects(g: ClosedGraph, limits: Limits, advisory: string, candidates: seq<Exception>,
                                  nodes: seq<string>, reason: Reason)
  {
    exists node :: node in nodes && NodeObjects(g, limits, advisory, candidates, node, reason)
  }

  lemma {:induction false} WeighNodesAdd(g: ClosedGraph, limits: Limits, advisory: string, candidates: seq<Exception>,
                                         nodes: seq<string>, ev: Evidence, id: string, reason: Reason)
    ensures var r := WeighNodes(g, limits, advisory, candidates, nodes, ev);
            && (id in r.ids <==> id in ev.ids || SomeNodeRelies(g, limits, candidates, nodes, id))
            && (reason in r.reasons <==>
                reason in ev.reasons || SomeNodeObjects(g, limits, advisory, candidates, nodes, reason))
  {
    if nodes != [] {
      var front, last := nodes[..|nodes| - 1], nodes[|nodes| - 1];
      assert nodes == front + [last];
      WeighNodesAdd(g, limits, advisory, candidates, front, ev, id, reason);
      WeighNodeAdds(g, limits, advisory, candidates, last, WeighNodes(g, limits, advisory, candidates, front, ev), id,
                    reason);
      assert SomeNodeRelies(g, limits, candidates, nodes, id) <==>
             SomeNodeRelies(g, limits, candidates, front, id) || NodeRelies(g, limits, candidates, last, id);
      assert SomeNodeObjects(g, limits, advisory, candidates, nodes, reason) <==>
             SomeNodeObjects(g, limits, advisory, candidates, front, reason)
             || NodeObjects(g, limits, advisory, candidates, last, reason);
    }
  }

  // ---------------------------------------------------------------- in terms of the active exceptions

  /** The path is development-only, and the first active exception that approves it has this id. */
  ghost predicate PathReliesOn(ctx: Context, advisory: string, name: string, version: string, path: DependencyPath,
                               id: string)
  {
    && path.developmentOnly
    && exists k: nat ::
         IsFirstToApprove(ctx.active, k, advisory, name, version, path.packages) && ctx.active[k].id == id
  }

  ghost predicate ReliesAt(ctx: Context, g: ClosedGraph, advisory: string, name: string, node: string, id: string) {
    && Reported(g, node, ctx.limits).Some?
    && exists path :: path in Reported(g, node, ctx.limits).value
                      && PathReliesOn(ctx, advisory, name, g.entries[node].version, path, id)
  }

  lemma PathReliesOnFirst(ctx: Context, advisory: string, name: string, version: string, path: DependencyPath,
                          id: string)
    ensures PathRelies(Filter(ForVersion(version), Filter(About(advisory, name), ctx.active)), path, id)
            <==> PathReliesOn(ctx, advisory, name, version, path, id)
  {
    var k := FirstFiltered(About(advisory, name), ForVersion(version), ctx.active, path.packages);
    if k < |ctx.active| {
      assert IsFirstToApprove(ctx.active, k, advisory, name, version, path.packages);
    }
  }

  lemma NodeReliesExactly(ctx: Context, g: ClosedGraph, advisory: string, name: string, node: string, id: string)
    ensures NodeRelies(g, ctx.limits, Filter(About(advisory, name), ctx.active), node, id)
            <==> ReliesAt(ctx, g, advisory, name, node, id)
  {
    if Reported(g, node, ctx.limits).Some? {
      var version := g.entries[node].version;
      forall path
        ensures PathRelies(Filter(ForVersion(version), Filter(About(advisory, name), ctx.active)), path, id)
                <==> PathReliesOn(ctx, advisory, name, version, path, id)
      {
        PathReliesOnFirst(ctx, advisory, name, version, path, id);
      }
    }
  }

  /** A covered advisory relies on exactly the ids of the exceptions that come first for some path. */
  lemma ReliedOnExactly(ctx: Context, f: Finding, cause: AdvisoryCause, id: string)
    requires AdvisoryCoverage(ctx, f, cause).covered
    ensures AdvisoryIdFromUrl(cause.url).Some? && ctx.graph.Some?
    ensures id in AdvisoryCoverage(ctx, f, cause).exceptionIds <==>
            exists node :: node in f.nodes &&
              ReliesAt(ctx, ctx.graph.value, AdvisoryIdFromUrl(cause.url).value, f.name, node, id)
  {
    var advisory, g := AdvisoryIdFromUrl(cause.url).value, ctx.graph.value;
    var candidates := Filter(About(advisory, f.name), ctx.active);
    WeighNodesAdd(g, ctx.limits, advisory, candidates, f.nodes, NOTHING, id, CriticalFinding);
    forall node
      ensures NodeRelies(g, ctx.limits, candidates, node, id) <==> ReliesAt(ctx, g, advisory, f.name, node, id)
    {
      NodeReliesExactly(ctx, g, advisory, f.name, node, id);
    }
  }

  // ---------------------------------------------------------------- every objection

  predicate Concerns(e: Exception, advisory: string, name: string) {
    e.advisory == advisory && e.packageName == name
  }

  /** `exceptions[k]` is the first one about the advisory and package. */
  predicate IsFirstAbout(exceptions: seq<Exception>, k: nat, advisory: string, name: string) {
    && k < |exceptions| && Concerns(exceptions[k], advisory, name)
    && forall j | 0 <= j < k :: !Concerns(exceptions[j], advisory, name)
  }

  /** The path has no approval, or has one but is not development-only. */
  ghost predicate PathIsWrong(ctx: Context, advisory: string, name: string, version: string, path: DependencyPath,
                              reason: Reason)
  {
    if forall e :: e in ctx.active ==> !Approves(e, advisory, name, version, path.packages)
    then reason == PathNotCovered(advisory, path.packages)
    else !path.developmentOnly && reason == PathNotDevelopmentOnly(advisory, path.packages)
  }

  /** What is wrong at one node, as far as anything is. */
  ghost predicate IsWrongAt(ctx: Context, g: ClosedGraph, advisory: string, name: string, node: string,
                            reason: Reason)
  {
    var paths := Reported(g, node, ctx.limits);
    if paths.None? || paths.value == [] then reason == PathsUnknown(advisory, node)
    else
      var version := g.entries[node].version;
      if forall e :: e in ctx.active && Concerns(e, advisory, name) ==> e.packageVersion != version
      then reason == OtherVersion(advisory, node, version)
      else exists path :: path in paths.value && PathIsWrong(ctx, advisory, name, version, path, reason)
  }

  lemma PathObjectsExactly(ctx: Context, advisory: string, name: string, version: string, path: DependencyPath,
                           reason: Reason)
    ensures PathObjects(advisory, Filter(ForVersion(version), Filter(About(advisory, name), ctx.active)), path, reason)
            <==> PathIsWrong(ctx, advisory, name, version, path, reason)
  {
    var about := Filter(About(advisory, name), ctx.active);
    var matching := Filter(ForVersion(version), about);
    forall e: Exception
      ensures e in matching && e.path == path.packages <==>
              e in ctx.active && Approves(e, advisory, name, version, path.packages)
    {
      assert e in matching <==> e in about && e.packageVersion == version;
    }
  }

  lemma VersionsExactly(ctx: Context, advisory: string, name: string, version: string)
    ensures (forall e :: e in Filter(About(advisory, name), ctx.active) ==> e.packageVersion != version) <==>
            (forall e :: e in ctx.active && Concerns(e, advisory, name) ==> e.packageVersion != version)
  {
    forall e: Exception
      ensures e in Filter(About(advisory, name), ctx.active) <==> e in ctx.active && Concerns(e, advisory, name)
    {
    }
  }

  lemma SomePathObjectsExactly(ctx: Context, advisory: string, name: string, version: string,
                               paths: seq<DependencyPath>, reason: Reason)
    ensures SomePathObjects(advisory, Filter(ForVersion(version), Filter(About(advisory, name), ctx.active)), paths,
                            reason)
            <==> exists path :: path in paths && PathIsWrong(ctx, advisory, name, version, path, reason)
  {
    forall path
      ensures PathObjects(advisory, Filter(ForVersion(version), Filter(About(advisory, name), ctx.active)), path,
                          reason)
              <==> PathIsWrong(ctx, advisory, name, version, path, reason)
    {
      PathObjectsExactly(ctx, advisory, name, version, path, reason);
    }
  }

  lemma NodeObjectsExactly(ctx: Context, g: ClosedGraph, advisory: string, name: string, node: string, reason: Reason)
    ensures NodeObjects(g, ctx.limits, advisory, Filter(About(advisory, name), ctx.active), node, reason)
            <==> IsWrongAt(ctx, g, advisory, name, node, reason)
  {
    if Reported(g, node, ctx.limits).Some? {
      var version := g.entries[node].version;
      VersionsExactly(ctx, advisory, name, version);
      SomePathObjectsExactly(ctx, advisory, name, version, Reported(g, node, ctx.limits).value, reason);
    }
  }

  /** No exception that is active concerns the advisory: the first one that has lapsed is named, if any. */
  ghost predicate HasLapsed(ctx: Context, advisory: string, name: string, reason: Reason) {
    if forall e :: e in ctx.expired ==> !Concerns(e, advisory, name) then reason == NoActiveException(advisory)
    else exists k: nat ::
           IsFirstAbout(ctx.expired, k, advisory, name) && reason == ExceptionLapsed(advisory, ctx.expired[k].id)
  }

  /** The objection applies: it states the first thing that stands in the way, or for installed nodes what is wrong
      at one of them. */
  ghost predicate Applies(ctx: Context, f: Finding, cause: AdvisoryCause, reason: Reason) {
    var id := AdvisoryIdFromUrl(cause.url);
    if id.None? then reason == NotAnAdvisory(cause.url)
    else if cause.severity == Critical then reason == CriticalAdvisory(id.value)
    else if cause.dependency != f.name then reason == NamesAnotherPackage(id.value, cause.dependency)
    else if forall e :: e in ctx.active ==> !Concerns(e, id.value, f.name) then HasLapsed(ctx, id.value, f.name, reason)
    else if ctx.graph.None? then reason == GraphUnavailable(id.value)
    else if f.nodes == [] then reason == NoInstalledLocation(id.value)
    else exists node :: node in f.nodes && IsWrongAt(ctx, ctx.graph.value, id.value, f.name, node, reason)
  }

  lemma {:induction false} FirstKept(p: Exception -> bool, s: seq<Exception>) returns (k: nat)
    requires Filter(p, s) != []
    ensures k < |s| && p(s[k]) && Filter(p, s)[0] == s[k]
    ensures forall j :: 0 <= j < k ==> !p(s[j])
  {
    var front := s[..|s| - 1];
    if Filter(p, front) != [] {
      k := FirstKept(p, front);
    } else {
      k := |front|;
      forall j | 0 <= j < k ensures !p(s[j]) {
        assert front[j] in front;
      }
    }
  }

  lemma NoneKept(p: Exception -> bool, s: seq<Exception>)
    ensures Filter(p, s) == [] <==> forall e :: e in s ==> !p(e)
  {
    if Filter(p, s) != [] {
      assert Filter(p, s)[0] in Filter(p, s);
    }
  }

  lemma LapsedExactly(ctx: Context, advisory: string, name: string, reason: Reason)
    ensures HasLapsed(ctx, advisory, name, reason) <==>
            var lapsed := Filter(About(advisory, name), ctx.expired);
            reason == if lapsed != [] then ExceptionLapsed(advisory, lapsed[0].id) else NoActiveException(advisory)
  {
    NoneKept(About(advisory, name), ctx.expired);
    NoneConcerned(ctx.expired, advisory, name);
    if Filter(About(advisory, name), ctx.expired) != [] {
      var k := FirstKept(About(advisory, name), ctx.expired);
      assert IsFirstAbout(ctx.expired, k, advisory, name);
    }
  }

  lemma NoneConcerned(exceptions: seq<Exception>, advisory: string, name: string)
    ensures Filter(About(advisory, name), exceptions) == [] <==>
            forall e :: e in exceptions ==> !Concerns(e, advisory, name)
  {
    NoneKept(About(advisory, name), exceptions);
    forall e: Exception ensures About(advisory, name)(e) <==> Concerns(e, advisory, name) {
    }
  }

  lemma NodeObjectionsExactly(ctx: Context, g: ClosedGraph, f: Finding, advisory: string, reason: Reason)
    ensures var candidates := Filter(About(advisory, f.name), ctx.active);
            reason in WeighNodes(g, ctx.limits, advisory, candidates, f.nodes, NOTHING).reasons
            <==> exists node :: node in f.nodes && IsWrongAt(ctx, g, advisory, f.name, node, reason)
  {
    var candidates := Filter(About(advisory, f.name), ctx.active);
    WeighNodesAdd(g, ctx.limits, advisory, candidates, f.nodes, NOTHING, "", reason);
    forall node
      ensures NodeObjects(g, ctx.limits, advisory, candidates, node, reason)
              <==> IsWrongAt(ctx, g, advisory, f.name, node, reason)
    {
      NodeObjectsExactly(ctx, g, advisory, f.name, node, reason);
    }
  }

  /** The objections to an advisory are exactly those that apply. */
  lemma ObjectionsExactly(ctx: Context, f: Finding, cause: AdvisoryCause, reason: Reason)
    ensures reason in AdvisoryCoverage(ctx, f, cause).reasons <==> Applies(ctx, f, cause, reason)
  {
    var id := AdvisoryIdFromUrl(cause.url);
    if id.Some? && cause.severity != Critical && cause.dependency == f.name {
      NoneConcerned(ctx.active, id.value, f.name);
      if Filter(About(id.value, f.name), ctx.active) == [] {
        LapsedExactly(ctx, id.value, f.name, reason);
      } else if ctx.graph.Some? && f.nodes != [] {
        NodeObjectionsExactly(ctx, ctx.graph.value, f, id.value, reason);
      }
    }
  }

  // ---------------------------------------------------------------- findings

  /** What a cause of a finding objects to. */
  ghost predicate CauseObjects(c: CauseGraph, f: Finding, cause: Cause, reason: Reason) {
    match cause
    case Advisory(a) => reason in c.judge(f, a).reasons
    case Inherited(name) =>
      || (name !in c.byName && reason == CauseMissing(name))
      || (name in c.byName && !Covered(c, name) && reason == NotFullyCovered(name))
  }

  lemma {:induction false} FindingObjectionsExactly(c: CauseGraph, f: Finding, via: seq<Cause>, reason: Reason)
    ensures reason in WeighCauses(c, f, via).reasons
            <==> exists cause :: cause in via && CauseObjects(c, f, cause, reason)
  {
    if via != [] {
      var front, last := via[..|via| - 1], via[|via| - 1];
      assert via == front + [last];
      FindingObjectionsExactly(c, f, front, reason);
      assert reason in CauseVerdict(c, f, last).reasons <==> CauseObjects(c, f, last, reason);
    }
  }

  /** A blocking finding carries the objection to critical findings if it is critical, and otherwise exactly those of
      its causes; no other finding carries any. */
  lemma FindingReasonsExactly(ctx: Context, f: Finding, reason: Reason)
    ensures reason in EvaluateFinding(ctx, f).reasons <==>
            || (f.severity == Critical && reason == CriticalFinding)
            || (f.severity == High && exists cause :: cause in f.via && CauseObjects(CausesOf(ctx), f, cause, reason))
  {
    FindingObjectionsExactly(CausesOf(ctx), f, f.via, reason);
  }
}
