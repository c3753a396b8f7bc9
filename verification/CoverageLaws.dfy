/**
  Laws of the whole evaluation: which exceptions an excepted finding relies on, what happens without
  a graph, with more exceptions, at an earlier time or in another order, and how the exceptions of a
  policy divide into used, unused and expired ones.
 */
module CoverageLaws {
  import opened Prelude
  import opened AuditReport
  import opened Policy
  import opened RootPaths
  import opened Coverage
  import opened CauseLaws
  import opened AdvisoryLaws
  import opened Causes
  import opened CauseIds
  import opened CauseComparisons

  // ---------------------------------------------------------------- coverage by exceptions

  /** No finding is covered vacuously: it relies on at least one id, and every id is an active exception's. */
  lemma CoverageIsNeverVacuous(ctx: Context, name: string)
    requires EveryFindingHasCause(CausesOf(ctx)) && Covered(CausesOf(ctx), name)
    ensures Covering(CausesOf(ctx), name).value != []
    ensures forall id :: id in Covering(CausesOf(ctx), name).value ==> exists e :: e in ctx.active && e.id == id
    ensures ctx.graph.Some? && ctx.active != []
  {
    var c := CausesOf(ctx);
    JudgeIsSound(ctx);
    DerivationReliesOnSomething(c, |c.byName|, name);
    var ids := Covering(c, name).value;
    forall id | id in ids ensures (exists e :: e in ctx.active && e.id == id) && ctx.graph.Some? {
      CoveringIdsExact(c, name, id);
      var f, a := SourceOf(c, name, id);
      assert SoundVerdict(c.judge(f, a));
      CoveredExactlyWhenExcused(ctx, f, a);
    }
    assert ids[0] in ids;
  }

  // ---------------------------------------------------------------- from findings to verdicts

  /** The status of a finding in terms of its severity and coverage. */
  lemma ExceptedMeansCovered(findings: seq<Finding>, exceptions: seq<Exception>, graph: Option<ClosedGraph>, now: int,
                             limits: Limits, f: Finding)
    requires DistinctNames(findings) && f in findings
    ensures var ctx := ContextOf(findings, exceptions, graph, now, limits);
            var e := EvaluateFinding(ctx, f);
            && f.name in ctx.byName && ctx.byName[f.name] == f
            && (e.status == Excepted <==> f.severity == High && Covered(CausesOf(ctx), f.name))
            && (e.status == Blocking
                <==> f.severity == Critical || (f.severity == High && !Covered(CausesOf(ctx), f.name)))
            && (e.status == Excepted ==> e.exceptionIds == Covering(CausesOf(ctx), f.name).value)
  {
    var ctx := ContextOf(findings, exceptions, graph, now, limits);
    ByNameIsKeyed(findings);
    JudgeIsSound(ctx);
    CoverageIsFixedPoint(CausesOf(ctx), f.name);
  }

  lemma ReportGivesCauses(findings: seq<Finding>, exceptions: seq<Exception>, graph: Option<ClosedGraph>, now: int,
                          limits: Limits)
    requires DistinctNames(findings) && forall f :: f in findings ==> f.via != []
    ensures EveryFindingHasCause(CausesOf(ContextOf(findings, exceptions, graph, now, limits)))
  {
    ByNameIsKeyed(findings);
  }

  // ---------------------------------------------------------------- more exceptions, earlier times

  lemma NodeExcusedIsMonotone(g: ClosedGraph, limits: Limits, fewer: seq<Exception>, more: seq<Exception>, node: string)
    requires (forall e :: e in fewer ==> e in more) && NodeExcused(g, limits, fewer, node)
    ensures NodeExcused(g, limits, more, node)
  {
    var version := g.entries[node].version;
    forall path | path in Reported(g, node, limits).value ensures PathExcused(Filter(ForVersion(version), more), path) {
      assert PathExcused(Filter(ForVersion(version), fewer), path);
      var e :| e in Filter(ForVersion(version), fewer) && e.path == path.packages;
      assert e in Filter(ForVersion(version), more);
    }
  }

  lemma AdvisoryCoverageIsMonotone(less: Context, more: Context, f: Finding, cause: AdvisoryCause)
    requires less.byName == more.byName && less.graph == more.graph && less.limits == more.limits
    requires forall e :: e in less.active ==> e in more.active
    requires AdvisoryCoverage(less, f, cause).covered
    ensures AdvisoryCoverage(more, f, cause).covered
  {
    CoveredExactlyWhenExcused(less, f, cause);
    CoveredExactlyWhenExcused(more, f, cause);
    var advisory := AdvisoryIdFromUrl(cause.url).value;
    forall node | node in f.nodes
      ensures NodeExcused(more.graph.value, more.limits, Filter(About(advisory, f.name), more.active), node)
    {
      NodeExcusedIsMonotone(less.graph.value, less.limits, Filter(About(advisory, f.name), less.active),
                            Filter(About(advisory, f.name), more.active), node);
    }
  }

  lemma MoreExceptionsAllowMore(less: Context, more: Context)
    requires less.byName == more.byName && less.graph == more.graph && less.limits == more.limits
    requires forall e :: e in less.active ==> e in more.active
    ensures AllowsMore(CausesOf(less), CausesOf(more))
  {
    forall f, cause | AdvisoryCoverage(less, f, cause).covered ensures AdvisoryCoverage(more, f, cause).covered {
      AdvisoryCoverageIsMonotone(less, more, f, cause);
    }
  }

  /** Adding exceptions, or evaluating earlier, never withdraws an acceptance. */
  lemma AcceptanceIsMonotone(findings: seq<Finding>, graph: Option<ClosedGraph>, limits: Limits, f: Finding,
                             fewer: seq<Exception>, later: int, more: seq<Exception>, earlier: int)
    requires DistinctNames(findings) && f in findings
    requires (forall e :: e in fewer ==> e in more) && earlier <= later
    requires EvaluateFinding(ContextOf(findings, fewer, graph, later, limits), f).status == Excepted
    ensures EvaluateFinding(ContextOf(findings, more, graph, earlier, limits), f).status == Excepted
  {
    ExceptedMeansCovered(findings, fewer, graph, later, limits, f);
    ExceptedMeansCovered(findings, more, graph, earlier, limits, f);
    var less, allowing := ContextOf(findings, fewer, graph, later, limits),
      ContextOf(findings, more, graph, earlier, limits);
    MoreExceptionsAllowMore(less, allowing);
    CoverageIsMonotone(CausesOf(less), CausesOf(allowing), f.name);
  }

  // ---------------------------------------------------------------- order of findings

  lemma ByNameIgnoresOrder(a: seq<Finding>, b: seq<Finding>)
    requires DistinctNames(a) && DistinctNames(b) && Elements(a) == Elements(b)
    ensures ByName(a) == ByName(b)
  {
    ByNameIsKeyed(a);
    ByNameIsKeyed(b);
    assert forall f :: f in a <==> f in Elements(a);
    assert forall f :: f in b <==> f in Elements(b);
    assert forall n :: n in ByName(a) ==> n in ByName(b) && ByName(b)[n] == ByName(a)[n];
    assert forall n :: n in ByName(b) ==> n in ByName(a);
  }

  lemma EvaluateAllElements(ctx: Context, findings: seq<Finding>)
    ensures Elements(EvaluateAll(ctx, findings)) == set f | f in findings :: EvaluateFinding(ctx, f)
  {
    var evaluated := EvaluateAll(ctx, findings);
    forall f | f in findings ensures EvaluateFinding(ctx, f) in evaluated {
      var i :| 0 <= i < |findings| && findings[i] == f;
      assert evaluated[i] == EvaluateFinding(ctx, f);
    }
    forall e | e in evaluated ensures exists f :: f in findings && e == EvaluateFinding(ctx, f) {
      var i :| 0 <= i < |evaluated| && evaluated[i] == e;
      assert findings[i] in findings;
    }
  }

  /** The order in which a report lists its findings changes no verdict and no warning. */
  lemma OrderDoesNotMatter(a: seq<Finding>, b: seq<Finding>, exceptions: seq<Exception>, graph: Option<ClosedGraph>,
                           now: int, limits: Limits)
    requires DistinctNames(a) && DistinctNames(b) && Elements(a) == Elements(b)
    ensures var ea, eb := Evaluate(a, exceptions, graph, now, limits), Evaluate(b, exceptions, graph, now, limits);
            && Elements(ea.findings) == Elements(eb.findings)
            && ea.unusedExceptions == eb.unusedExceptions
            && ea.expiredExceptions == eb.expiredExceptions
  {
    ByNameIgnoresOrder(a, b);
    var ctx := ContextOf(a, exceptions, graph, now, limits);
    EvaluateAllElements(ctx, a);
    EvaluateAllElements(ctx, b);
    assert forall f :: f in a <==> f in Elements(a);
    assert forall f :: f in b <==> f in Elements(b);
    var ea, eb := EvaluateAll(ctx, a), EvaluateAll(ctx, b);
    assert Elements(ea) == Elements(eb);
    assert UsedIds(ea) == UsedIds(eb) by {
      assert forall e :: e in ea <==> e in Elements(ea);
      assert forall e :: e in eb <==> e in Elements(eb);
    }
  }

  // ---------------------------------------------------------------- accounting

  /** Used, unused and expired exceptions divide the policy, and their numbers add up. */
  lemma ExceptionsArePartitioned(findings: seq<Finding>, exceptions: seq<Exception>, graph: Option<ClosedGraph>,
                                 now: int, limits: Limits)
    requires DistinctNames(findings) && (forall f :: f in findings ==> f.via != []) && DistinctIds(exceptions)
    ensures var e := Evaluate(findings, exceptions, graph, now, limits);
            var used, unused, expired := UsedIds(e.findings), Ids(e.unusedExceptions), Ids(e.expiredExceptions);
            && used !! unused && used !! expired && unused !! expired
            && used + unused + expired == Ids(exceptions)
            && |used| + |e.unusedExceptions| + |e.expiredExceptions| == |exceptions|
  {
    var ctx := ContextOf(findings, exceptions, graph, now, limits);
    UsedIdsAreActive(findings, exceptions, graph, now, limits);
    ActiveDivide(exceptions, now, UsedIds(EvaluateAll(ctx, findings)));
  }

  lemma ActiveDivide(exceptions: seq<Exception>, now: int, used: set<string>)
    requires DistinctIds(exceptions)
    requires forall id :: id in used ==> exists x :: x in Filter(ActiveAt(now), exceptions) && x.id == id
    ensures var unused, expired := Filter(NotAmong(used), Filter(ActiveAt(now), exceptions)),
            Filter(ExpiredAt(now), exceptions);
            && used !! Ids(unused) && used !! Ids(expired) && Ids(unused) !! Ids(expired)
            && used + Ids(unused) + Ids(expired) == Ids(exceptions)
            && |used| + |unused| + |expired| == |exceptions|
  {
    var active, expired := Filter(ActiveAt(now), exceptions), Filter(ExpiredAt(now), exceptions);
    var unused := Filter(NotAmong(used), active);
    ActiveAndExpired(exceptions, now);
    UsedAndUnused(active, used);
    FilterKeepsDistinctIds(ActiveAt(now), exceptions);
    FilterKeepsDistinctIds(NotAmong(used), active);
    FilterKeepsDistinctIds(ExpiredAt(now), exceptions);
    DistinctIdsCount(unused);
    DistinctIdsCount(expired);
    DistinctIdsCount(exceptions);
    DisjointSizes(used, Ids(unused), Ids(expired));
  }

  lemma DisjointSizes(a: set<string>, b: set<string>, c: set<string>)
    requires a !! b && a !! c && b !! c
    ensures |a + b + c| == |a| + |b| + |c|
  {
    assert |a + b| == |a| + |b|;
  }

  lemma ActiveAndExpired(exceptions: seq<Exception>, now: int)
    requires DistinctIds(exceptions)
    ensures var active, expired := Ids(Filter(ActiveAt(now), exceptions)), Ids(Filter(ExpiredAt(now), exceptions));
            active !! expired && active + expired == Ids(exceptions)
  {
    OneExceptionPerId(exceptions);
  }

  lemma UsedAndUnused(active: seq<Exception>, used: set<string>)
    requires forall id :: id in used ==> exists x :: x in active && x.id == id
    ensures used !! Ids(Filter(NotAmong(used), active)) && used + Ids(Filter(NotAmong(used), active)) == Ids(active)
  {
  }

  lemma OneExceptionPerId(exceptions: seq<Exception>)
    requires DistinctIds(exceptions)
    ensures forall a, b :: a in exceptions && b in exceptions && a.id == b.id ==> a == b
  {
  }

  lemma UsedIdsAreActive(findings: seq<Finding>, exceptions: seq<Exception>, graph: Option<ClosedGraph>, now: int,
                         limits: Limits)
    requires DistinctNames(findings) && forall f :: f in findings ==> f.via != []
    ensures var ctx := ContextOf(findings, exceptions, graph, now, limits);
            forall id :: id in UsedIds(EvaluateAll(ctx, findings)) ==> exists x :: x in ctx.active && x.id == id
  {
    var ctx := ContextOf(findings, exceptions, graph, now, limits);
    ReportGivesCauses(findings, exceptions, graph, now, limits);
    var evaluated := EvaluateAll(ctx, findings);
    forall id | id in UsedIds(evaluated) ensures exists x :: x in ctx.active && x.id == id {
      var e :| e in evaluated && e.status == Excepted && id in e.exceptionIds;
      var i :| 0 <= i < |evaluated| && evaluated[i] == e;
      ExceptedMeansCovered(findings, exceptions, graph, now, limits, findings[i]);
      CoverageIsNeverVacuous(ctx, findings[i].name);
    }
  }

  // ---------------------------------------------------------------- when the graph is irrelevant

  /** Without high findings or without exceptions, the dependency graph changes nothing. */
  lemma GraphIsIrrelevant(findings: seq<Finding>, exceptions: seq<Exception>, g1: Option<ClosedGraph>,
                          g2: Option<ClosedGraph>, now: int, limits: Limits)
    requires CountOf(findings, High) == 0 || exceptions == []
    ensures Evaluate(findings, exceptions, g1, now, limits) == Evaluate(findings, exceptions, g2, now, limits)
  {
    var a, b := ContextOf(findings, exceptions, g1, now, limits), ContextOf(findings, exceptions, g2, now, limits);
    forall i | 0 <= i < |findings| ensures EvaluateFinding(a, findings[i]) == EvaluateFinding(b, findings[i]) {
      if CountOf(findings, High) == 0 {
        NoneCounted(findings, High, i);
      } else {
        assert a.active == [] && b.active == [];
        forall f, cause ensures AdvisoryCoverage(a, f, cause) == AdvisoryCoverage(b, f, cause) {
          NoCandidates(a, b, f, cause);
        }
        SameWeights(CausesOf(a), CausesOf(b), findings[i], findings[i].via);
      }
    }
    assert EvaluateAll(a, findings) == EvaluateAll(b, findings);
  }

  lemma NoCandidates(a: Context, b: Context, f: Finding, cause: AdvisoryCause)
    requires a.active == [] && b.active == [] && a.expired == b.expired
    ensures AdvisoryCoverage(a, f, cause) == AdvisoryCoverage(b, f, cause)
  {
  }

  lemma {:induction false} NoneCounted(findings: seq<Finding>, s: Severity, i: nat)
    requires CountOf(findings, s) == 0 && i < |findings|
    ensures findings[i].severity != s
  {
    if i < |findings| - 1 {
      NoneCounted(findings[..|findings| - 1], s, i);
    }
  }
}
