/**
  What a covered advisory guarantees about the installed tree: every listed node is the approved
  package version, every path to it is approved and development-only, and no walk reaches it from a
  runtime dependency of the root.
 */
module AdvisoryLaws {
  import opened Prelude
  import opened Location
  import opened AuditReport
  import opened Policy
  import opened PolicySchema
  import opened PathEntries
  import opened DependencyGraph
  import opened RootPaths
  import opened PathLaws
  import opened SearchLaws
  import opened Causes
  import opened CauseLaws
  import opened Coverage

  // ---------------------------------------------------------------- when an advisory is covered

  ghost predicate PathExcused(exceptions: seq<Exception>, path: DependencyPath) {
    path.developmentOnly && exists e :: e in exceptions && e.path == path.packages
  }

  ghost predicate NodeExcused(g: ClosedGraph, limits: Limits, exceptions: seq<Exception>, node: string) {
    var paths := Reported(g, node, limits);
    && paths.Some? && paths.value != []
    && forall path :: path in paths.value ==> PathExcused(Filter(ForVersion(g.entries[node].version), exceptions), path)
  }

  /** Every path to every listed node is development-only and approved for this advisory, package and version. */
  ghost predicate Excused(ctx: Context, f: Finding, cause: AdvisoryCause) {
    var advisory := AdvisoryIdFromUrl(cause.url);
    && advisory.Some? && cause.severity != Critical && cause.dependency == f.name
    && ctx.graph.Some? && f.nodes != []
    && forall node :: node in f.nodes ==>
         NodeExcused(ctx.graph.value, ctx.limits, Filter(About(advisory.value, f.name), ctx.active), node)
  }

  /** Where the ids of unobjected evidence come from. */
  ghost predicate FromExceptions(ids: seq<string>, earlier: seq<string>, exceptions: seq<Exception>) {
    && (forall id :: id in earlier ==> id in ids)
    && (forall id :: id in ids && id !in earlier ==> exists e :: e in exceptions && e.id == id)
  }

  lemma WeighPathExact(advisory: string, matching: seq<Exception>, path: DependencyPath, ev: Evidence)
    ensures var r := WeighPath(advisory, matching, path, ev);
            && (r.reasons == [] <==> ev.reasons == [] && PathExcused(matching, path))
            && FromExceptions(r.ids, ev.ids, matching)
            && (r.reasons == [] ==> r.ids != [])
  {
    var found := FirstForPath(matching, path.packages);
    if found.Some? && path.developmentOnly {
      assert found.value.id in Insert(ev.ids, found.value.id);
    }
  }

  lemma FromExceptionsTwice(ids: seq<string>, middle: seq<string>, earlier: seq<string>, exceptions: seq<Exception>)
    requires FromExceptions(ids, middle, exceptions) && FromExceptions(middle, earlier, exceptions)
    ensures FromExceptions(ids, earlier, exceptions)
  {
  }

  lemma {:induction false} WeighPathsExact(advisory: string, matching: seq<Exception>, paths: seq<DependencyPath>,
                                           ev: Evidence)
    ensures var r := WeighPaths(advisory, matching, paths, ev);
            && (r.reasons == [] <==> ev.reasons == [] && forall path :: path in paths ==> PathExcused(matching, path))
            && FromExceptions(r.ids, ev.ids, matching)
            && (r.reasons == [] && paths != [] ==> r.ids != [])
  {
    if paths != [] {
      var front, last := paths[..|paths| - 1], paths[|paths| - 1];
      var before := WeighPaths(advisory, matching, front, ev);
      WeighPathsExact(advisory, matching, front, ev);
      WeighPathExact(advisory, matching, last, before);
      FromExceptionsTwice(WeighPath(advisory, matching, last, before).ids, before.ids, ev.ids, matching);
      assert paths == front + [last];
    }
  }

  lemma WeighNodeExact(g: ClosedGraph, limits: Limits, advisory: string, candidates: seq<Exception>, node: string,
                       ev: Evidence)
    ensures var r := WeighNode(g, limits, advisory, candidates, node, ev);
            && (r.reasons == [] <==> ev.reasons == [] && NodeExcused(g, limits, candidates, node))
            && FromExceptions(r.ids, ev.ids, candidates)
            && (r.reasons == [] ==> r.ids != [])
  {
    var paths := Reported(g, node, limits);
    if paths.Some? && paths.value != [] {
      var matching := Filter(ForVersion(g.entries[node].version), candidates);
      WeighPathsExact(advisory, matching, paths.value, ev);
      assert paths.value[0] in paths.value;
    }
  }

  lemma {:induction false} WeighNodesExact(g: ClosedGraph, limits: Limits, advisory: string, candidates: seq<Exception>,
                                           nodes: seq<string>, ev: Evidence)
    ensures var r := WeighNodes(g, limits, advisory, candidates, nodes, ev);
            && (r.reasons == []
                <==> ev.reasons == [] && forall node :: node in nodes ==> NodeExcused(g, limits, candidates, node))
            && FromExceptions(r.ids, ev.ids, candidates)
            && (r.reasons == [] && nodes != [] ==> r.ids != [])
  {
    if nodes != [] {
      var front, last := nodes[..|nodes| - 1], nodes[|nodes| - 1];
      assert nodes == front + [last];
      var before := WeighNodes(g, limits, advisory, candidates, front, ev);
      WeighNodesExact(g, limits, advisory, candidates, front, ev);
      WeighNodeExact(g, limits, advisory, candidates, last, before);
      FromExceptionsTwice(WeighNode(g, limits, advisory, candidates, last, before).ids, before.ids, ev.ids, candidates);
      assert (forall node :: node in nodes ==> NodeExcused(g, limits, candidates, node)) <==>
             (forall node :: node in front ==> NodeExcused(g, limits, candidates, node))
             && NodeExcused(g, limits, candidates, last);
    }
  }

  lemma NodeExcusedNeedsCandidates(g: ClosedGraph, limits: Limits, candidates: seq<Exception>, node: string)
    requires NodeExcused(g, limits, candidates, node)
    ensures candidates != []
  {
    var paths := Reported(g, node, limits).value;
    assert PathExcused(Filter(ForVersion(g.entries[node].version), candidates), paths[0]);
  }

  /** The verdict on an advisory, both ways; a covered one relies on at least one active exception about it. */
  lemma CoveredExactlyWhenExcused(ctx: Context, f: Finding, cause: AdvisoryCause)
    ensures AdvisoryCoverage(ctx, f, cause).covered <==> Excused(ctx, f, cause)
    ensures AdvisoryCoverage(ctx, f, cause).covered ==>
              var ids := AdvisoryCoverage(ctx, f, cause).exceptionIds;
              ids != [] && forall id :: id in ids ==> exists e :: e in ctx.active && e.id == id
  {
    var advisory := AdvisoryIdFromUrl(cause.url);
    if advisory.Some? && ctx.graph.Some? {
      var candidates := Filter(About(advisory.value, f.name), ctx.active);
      WeighNodesExact(ctx.graph.value, ctx.limits, advisory.value, candidates, f.nodes, NOTHING);
      if Excused(ctx, f, cause) {
        NodeExcusedNeedsCandidates(ctx.graph.value, ctx.limits, candidates, f.nodes[0]);
      }
    }
  }

  lemma JudgeIsSound(ctx: Context)
    ensures SoundJudge(CausesOf(ctx))
  {
    forall f, a ensures SoundVerdict(AdvisoryCoverage(ctx, f, a)) {
      CoveredExactlyWhenExcused(ctx, f, a);
    }
  }

  // ---------------------------------------------------------------- in terms of the dependency relation

  /** The path starts with a development edge, passes only packages flagged as development-only, and is approved for
      the advisory and the installed version. */
  ghost predicate PathApproved(ctx: Context, g: ClosedGraph, f: Finding, advisory: string, node: string, p: RootPath)
    requires node in g.entries
  {
    && p.viaDevEdge && (forall l :: l in p.locations ==> l in g.entries && g.entries[l].dev)
    && exists e :: e in ctx.active && e.advisory == advisory && e.packageName == f.name
                   && e.packageVersion == g.entries[node].version && Writes(g.entries, p.locations, e.path)
  }

  /** The node is installed, can be reached from the root, can be searched within the limits, and every simple
      path to it is approved. */
  ghost predicate NodeApproved(ctx: Context, g: ClosedGraph, f: Finding, advisory: string, node: string) {
    && node in g.entries
    && StepsTo(g, node) <= ctx.limits.maxSteps && |PathsTo(g, node)| <= ctx.limits.maxPaths
    && (exists p :: IsRootPath(g.entries, p, node))
    && forall p :: IsRootPath(g.entries, p, node) ==> PathApproved(ctx, g, f, advisory, node, p)
  }

  ghost predicate EveryPathApproved(ctx: Context, f: Finding, cause: AdvisoryCause) {
    var advisory := AdvisoryIdFromUrl(cause.url);
    && advisory.Some? && cause.severity != Critical && cause.dependency == f.name
    && ctx.graph.Some? && f.nodes != []
    && forall node :: node in f.nodes ==> NodeApproved(ctx, ctx.graph.value, f, advisory.value, node)
  }

  lemma DescribedPathExcused(ctx: Context, g: ClosedGraph, f: Finding, advisory: string, node: string, p: RootPath)
    requires node in g.entries && AllInstalled(g, p.locations)
    ensures PathExcused(Filter(ForVersion(g.entries[node].version), Filter(About(advisory, f.name), ctx.active)),
                        Describe(g, p))
            <==> PathApproved(ctx, g, f, advisory, node, p)
  {
    var about := Filter(About(advisory, f.name), ctx.active);
    var matching := Filter(ForVersion(g.entries[node].version), about);
    forall e: Exception ensures e.path == Labels(g, p.locations) <==> Writes(g.entries, p.locations, e.path) {
      LabelsAreWritten(g, p.locations, e.path);
    }
    if PathApproved(ctx, g, f, advisory, node, p) {
      var e :| e in ctx.active && e.advisory == advisory && e.packageName == f.name
               && e.packageVersion == g.entries[node].version && Writes(g.entries, p.locations, e.path);
      assert e in about && e in matching;
    }
  }

  lemma NodeExcusedIsApproved(ctx: Context, g: ClosedGraph, f: Finding, advisory: string, node: string)
    requires InvertsDependencies(g)
    ensures NodeExcused(g, ctx.limits, Filter(About(advisory, f.name), ctx.active), node)
            <==> NodeApproved(ctx, g, f, advisory, node)
  {
    if node in g.entries {
      var paths := PathsTo(g, node);
      var matching := Filter(ForVersion(g.entries[node].version), Filter(About(advisory, f.name), ctx.active));
      forall p ensures p in paths <==> IsRootPath(g.entries, p, node) {
        EnumerationIsExact(g, node, p);
      }
      forall p | p in paths
        ensures PathExcused(matching, Describe(g, p)) <==> PathApproved(ctx, g, f, advisory, node, p)
      {
        DescribedPathExcused(ctx, g, f, advisory, node, p);
      }
      DescribedPaths(g, paths, matching);
      assert paths != [] ==> paths[0] in paths;
      assert paths == [] <==> DescribeAll(g, paths) == [];
    }
  }

  lemma DescribedPaths(g: ClosedGraph, paths: seq<RootPath>, matching: seq<Exception>)
    requires forall p :: p in paths ==> AllInstalled(g, p.locations)
    ensures (forall path :: path in DescribeAll(g, paths) ==> PathExcused(matching, path)) <==>
            (forall p :: p in paths ==> PathExcused(matching, Describe(g, p)))
  {
    var described := DescribeAll(g, paths);
    if forall path :: path in described ==> PathExcused(matching, path) {
      forall p | p in paths ensures PathExcused(matching, Describe(g, p)) {
        var i :| 0 <= i < |paths| && paths[i] == p;
        assert described[i] in described;
      }
    }
  }

  /** The verdict on an advisory in terms of the dependency relation alone, both ways. */
  lemma CoveredExactlyWhenEveryPathApproved(ctx: Context, f: Finding, cause: AdvisoryCause)
    requires ctx.graph.Some? ==> InvertsDependencies(ctx.graph.value)
    ensures AdvisoryCoverage(ctx, f, cause).covered <==> EveryPathApproved(ctx, f, cause)
  {
    CoveredExactlyWhenExcused(ctx, f, cause);
    var advisory := AdvisoryIdFromUrl(cause.url);
    if ctx.graph.Some? && advisory.Some? {
      forall node | node in f.nodes
        ensures NodeExcused(ctx.graph.value, ctx.limits, Filter(About(advisory.value, f.name), ctx.active), node)
                <==> NodeApproved(ctx, ctx.graph.value, f, advisory.value, node)
      {
        NodeExcusedIsApproved(ctx, ctx.graph.value, f, advisory.value, node);
      }
    }
  }

  // ---------------------------------------------------------------- what it guarantees about the tree

  /** Every package on every path to a covered node is flagged as development-only, and every such path starts with
      a development edge. */
  lemma CoveredPathsAreDevelopment(ctx: Context, f: Finding, cause: AdvisoryCause, node: string, p: RootPath)
    requires AdvisoryCoverage(ctx, f, cause).covered && node in f.nodes
    requires ctx.graph.Some? ==> InvertsDependencies(ctx.graph.value)
    requires ctx.graph.Some? ==> IsRootPath(ctx.graph.value.entries, p, node)
    ensures ctx.graph.Some? && p.viaDevEdge
    ensures forall l :: l in p.locations ==> l in ctx.graph.value.entries && ctx.graph.value.entries[l].dev
  {
    CoveredExactlyWhenEveryPathApproved(ctx, f, cause);
    assert NodeApproved(ctx, ctx.graph.value, f, AdvisoryIdFromUrl(cause.url).value, node);
    assert PathApproved(ctx, ctx.graph.value, f, AdvisoryIdFromUrl(cause.url).value, node, p);
  }

  lemma PathIsExcused(ctx: Context, f: Finding, cause: AdvisoryCause, node: string, p: RootPath)
    requires AdvisoryCoverage(ctx, f, cause).covered && node in f.nodes
    ensures ctx.graph.Some? && node in ctx.graph.value.entries
    ensures var g := ctx.graph.value;
            PathsTo(g, node) != [] &&
            (p in PathsTo(g, node) ==>
               AllInstalled(g, p.locations) && p.viaDevEdge && AllDev(g, p.locations) &&
               exists e :: e in ctx.active && e.packageName == f.name && e.packageVersion == g.entries[node].version
                           && Some(e.advisory) == AdvisoryIdFromUrl(cause.url) && e.path == Labels(g, p.locations))
  {
    CoveredExactlyWhenExcused(ctx, f, cause);
    var g := ctx.graph.value;
    var candidates := Filter(About(AdvisoryIdFromUrl(cause.url).value, f.name), ctx.active);
    assert NodeExcused(g, ctx.limits, candidates, node);
    if p in PathsTo(g, node) {
      var i :| 0 <= i < |PathsTo(g, node)| && PathsTo(g, node)[i] == p;
      assert Reported(g, node, ctx.limits).value[i] == Describe(g, p);
      assert PathExcused(Filter(ForVersion(g.entries[node].version), candidates), Describe(g, p));
    }
  }

  /** A covered advisory concerns no package that the root needs at run time. */
  lemma CoveredIsNotRuntimeReachable(ctx: Context, f: Finding, cause: AdvisoryCause, node: string)
    requires AdvisoryCoverage(ctx, f, cause).covered && node in f.nodes
    requires ctx.graph.Some? ==> InvertsDependencies(ctx.graph.value)
    ensures ctx.graph.Some? && !RuntimeReachable(ctx.graph.value.entries, node)
  {
    CoveredExactlyWhenExcused(ctx, f, cause);
    var g := ctx.graph.value;
    if RuntimeReachable(g.entries, node) {
      var walk :| walk != [] && walk[|walk| - 1] == node && IsWalk(g.entries, walk)
        && DependsOn(g.entries, "", walk[0], false);
      var p := EveryWalkIsListed(g, walk, false);
      PathIsExcused(ctx, f, cause, node, p);
    }
  }

  lemma SameVersionSameName(name1: string, name2: string, version: string)
    requires AtVersion(name1, version) == AtVersion(name2, version)
    ensures name1 == name2
  {
    assert AtVersion(name1, version) == name1 + ("@" + version);
    assert AtVersion(name2, version) == name2 + ("@" + version);
    assert |name1| == |name2|;
    assert name1 == AtVersion(name1, version)[..|name1|];
    assert name2 == AtVersion(name2, version)[..|name2|];
  }

  /** `entry` is the package that the path entry `approved` stands for: it writes to it, and when it has a name,
      name and version are a package name and an exact version that `approved` determines. */
  ghost predicate IsPinned(approved: string, entry: LockEntry) {
    && approved == AtVersion(entry.name, entry.version)
    && (entry.name != "" ==>
          && IsPackageName(entry.name) && IsExactVersion(entry.version)
          && forall name, version :: name != "" && approved == AtVersion(name, version) ==>
               name == entry.name && version == entry.version)
  }

  lemma EntryIsPinned(approved: string, entry: LockEntry)
    requires IsPathEntry(approved) && approved == AtVersion(entry.name, entry.version)
    ensures IsPinned(approved, entry)
  {
    var name, version := PathEntrySplits(approved);
    EntrySplits(approved, entry.name, entry.version);
  }

  /** Every package on a path to a covered node is the one the approved path names at that position: for versions
      without '@' under any policy, and for every installed package with a name under a decoded one. */
  lemma AncestorIsApprovedPackage(ctx: Context, f: Finding, cause: AdvisoryCause, node: string, p: RootPath)
    returns (e: Exception)
    requires AdvisoryCoverage(ctx, f, cause).covered && node in f.nodes
    requires ctx.graph.Some? ==> InvertsDependencies(ctx.graph.value)
    requires ctx.graph.Some? ==> IsRootPath(ctx.graph.value.entries, p, node)
    ensures ctx.graph.Some? && AllInstalled(ctx.graph.value, p.locations)
    ensures e in ctx.active && |e.path| == |p.locations|
    ensures var entries := ctx.graph.value.entries;
            forall i, name, version ::
              0 <= i < |e.path| && '@' !in version && '@' !in entries[p.locations[i]].version
              && e.path[i] == AtVersion(name, version)
              ==> entries[p.locations[i]].name == name && entries[p.locations[i]].version == version
    ensures ApprovesPackages(ctx.active) ==>
              forall i :: 0 <= i < |e.path| ==> IsPinned(e.path[i], ctx.graph.value.entries[p.locations[i]])
  {
    PathIsExcused(ctx, f, cause, node, p);
    var g := ctx.graph.value;
    EnumerationIsExact(g, node, p);
    e :| e in ctx.active && e.packageName == f.name && e.packageVersion == g.entries[node].version
         && Some(e.advisory) == AdvisoryIdFromUrl(cause.url) && e.path == Labels(g, p.locations);
    LabelsIdentify(g, p.locations, e.path);
    if ApprovesPackages(ctx.active) {
      LabelsPin(g, p.locations, e.path);
    }
  }

  lemma LabelsIdentify(g: LockGraph, locations: seq<string>, path: seq<string>)
    requires AllInstalled(g, locations) && path == Labels(g, locations)
    ensures forall i, name, version ::
              0 <= i < |path| && '@' !in version && '@' !in g.entries[locations[i]].version
              && path[i] == AtVersion(name, version)
              ==> g.entries[locations[i]].name == name && g.entries[locations[i]].version == version
  {
    forall i, name, version |
      0 <= i < |path| && '@' !in version && '@' !in g.entries[locations[i]].version
        && path[i] == AtVersion(name, version)
      ensures g.entries[locations[i]].name == name && g.entries[locations[i]].version == version
    {
      assert path[i] == Label(g, locations[i]);
      SplitAtSameMark(g.entries[locations[i]].name, g.entries[locations[i]].version, name, version);
    }
  }

  lemma LabelsPin(g: LockGraph, locations: seq<string>, path: seq<string>)
    requires AllInstalled(g, locations) && path == Labels(g, locations) && forall s :: s in path ==> IsPathEntry(s)
    ensures forall i :: 0 <= i < |path| ==> IsPinned(path[i], g.entries[locations[i]])
  {
    forall i | 0 <= i < |path| ensures IsPinned(path[i], g.entries[locations[i]]) {
      assert path[i] in path && path[i] == Label(g, locations[i]);
      EntryIsPinned(path[i], g.entries[locations[i]]);
    }
  }

  /** A covered node has a listed path, whose exception approves the node's own name and version. */
  lemma CoveredNodeIsNamed(ctx: Context, f: Finding, cause: AdvisoryCause, node: string, now: int)
    returns (e: Exception)
    requires AdvisoryCoverage(ctx, f, cause).covered && node in f.nodes
    requires forall e :: e in ctx.active ==> Approved(e, now)
    requires ctx.graph.Some? ==> InvertsDependencies(ctx.graph.value)
    ensures ctx.graph.Some? && node in ctx.graph.value.entries
    ensures ctx.graph.value.entries[node].name == f.name
    ensures e in ctx.active && e.packageName == f.name && e.packageVersion == ctx.graph.value.entries[node].version
  {
    PathIsExcused(ctx, f, cause, node, RootPath(true, []));
    var g := ctx.graph.value;
    var p := PathsTo(g, node)[0];
    PathIsExcused(ctx, f, cause, node, p);
    EnumerationIsExact(g, node, p);
    e :| e in ctx.active && e.packageName == f.name && e.packageVersion == g.entries[node].version
         && e.path == Labels(g, p.locations);
    assert Approved(e, now);
    assert e.path[|e.path| - 1] == Label(g, node) == AtVersion(e.packageName, e.packageVersion);
    SameVersionSameName(g.entries[node].name, e.packageName, e.packageVersion);
  }

  lemma CoveredPathRepeatsNothing(ctx: Context, f: Finding, cause: AdvisoryCause, node: string, p: RootPath, now: int)
    requires AdvisoryCoverage(ctx, f, cause).covered && node in f.nodes
    requires forall e :: e in ctx.active ==> Approved(e, now)
    requires ctx.graph.Some? && InvertsDependencies(ctx.graph.value) && IsRootPath(ctx.graph.value.entries, p, node)
    ensures AllInstalled(ctx.graph.value, p.locations) && Distinct(Labels(ctx.graph.value, p.locations))
  {
    PathIsExcused(ctx, f, cause, node, p);
    EnumerationIsExact(ctx.graph.value, node, p);
    var e :| e in ctx.active && e.path == Labels(ctx.graph.value, p.locations);
    assert Approved(e, now);
  }

  /** Each covered node is an installation of the finding's package, and no path to it meets a package version twice. */
  lemma CoveredNodeIsApprovedPackage(ctx: Context, f: Finding, cause: AdvisoryCause, node: string, p: RootPath,
                                     now: int)
    requires AdvisoryCoverage(ctx, f, cause).covered && node in f.nodes
    requires forall e :: e in ctx.active ==> Approved(e, now)
    requires ctx.graph.Some? ==> InvertsDependencies(ctx.graph.value)
    ensures ctx.graph.Some? && node in ctx.graph.value.entries
    ensures var g := ctx.graph.value;
            g.entries[node].name == f.name &&
            (exists e :: e in ctx.active && e.packageName == f.name && e.packageVersion == g.entries[node].version) &&
            (IsRootPath(g.entries, p, node) ==> AllInstalled(g, p.locations) && Distinct(Labels(g, p.locations)))
  {
    var e := CoveredNodeIsNamed(ctx, f, cause, node, now);
    if IsRootPath(ctx.graph.value.entries, p, node) {
      CoveredPathRepeatsNothing(ctx, f, cause, node, p, now);
    }
  }
}
