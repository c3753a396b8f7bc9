/**
  What an evaluation says of each exception and each finding: which exceptions are reported as expired or as
  unused, which exception an advisory relies on, and which objections are raised, each for what reason.
 */
module EvaluationLaws {
  import opened Prelude
  import opened AuditReport
  import opened Policy
  import opened RootPaths
  import opened Causes
  import opened CauseIds
  import opened Coverage
  import opened CoverageLaws
  import opened AdvisoryLaws

  // ---------------------------------------------------------------- lists kept in order

  /** The elements of `part` stand in `whole` in the same order. */
  ghost predicate InOrder<T(!new)>(part: seq<T>, whole: seq<T>) {
    forall i, j :: 0 <= i < j < |part| ==> Precedes(part[i], part[j], whole)
  }

  ghost predicate Precedes<T(!new)>(x: T, y: T, whole: seq<T>) {
    exists m, n :: 0 <= m < n < |whole| && whole[m] == x && whole[n] == y
  }

  lemma {:induction false} FilterKeepsOrder<T(!new)>(p: T -> bool, s: seq<T>)
    ensures InOrder(Filter(p, s), s)
  {
    if s != [] {
      var front, last := s[..|s| - 1], s[|s| - 1];
      var kept := Filter(p, front);
      FilterKeepsOrder(p, front);
      assert s == front + [last];
      forall i, j | 0 <= i < j < |Filter(p, s)| ensures Precedes(Filter(p, s)[i], Filter(p, s)[j], s) {
        if j < |kept| {
          assert Precedes(kept[i], kept[j], front);
          var m, n :| 0 <= m < n < |front| && front[m] == kept[i] && front[n] == kept[j];
          assert s[m] == kept[i] && s[n] == kept[j];
        } else {
          assert kept[i] in front;
          var m :| 0 <= m < |front| && front[m] == kept[i];
          assert s[m] == kept[i] && s[|s| - 1] == last;
        }
      }
    }
  }

  lemma OrderWithin<T(!new)>(part: seq<T>, middle: seq<T>, whole: seq<T>)
    requires InOrder(part, middle) && InOrder(middle, whole)
    ensures InOrder(part, whole)
  {
    forall i, j | 0 <= i < j < |part| ensures Precedes(part[i], part[j], whole) {
      assert Precedes(part[i], part[j], middle);
      var m, n :| 0 <= m < n < |middle| && middle[m] == part[i] && middle[n] == part[j];
      assert Precedes(middle[m], middle[n], whole);
    }
  }

  // ---------------------------------------------------------------- expired and unused exceptions

  /** The exceptions a verdict can rely on are those not yet expired; the others are the expired ones. */
  lemma ActiveExactly(findings: seq<Finding>, exceptions: seq<Exception>, graph: Option<ClosedGraph>, now: int,
                      limits: Limits, e: Exception)
    ensures var ctx := ContextOf(findings, exceptions, graph, now, limits);
            && (e in ctx.active <==> e in exceptions && now < e.expiresAt)
            && (e in ctx.expired <==> e in exceptions && e.expiresAt <= now)
            && ctx.graph == graph && ctx.limits == limits
  {
  }

  /** Some high finding is covered and relies on `id`. */
  ghost predicate IsRelievedBy(ctx: Context, findings: seq<Finding>, id: string) {
    exists f :: f in findings && f.severity == High && Covered(CausesOf(ctx), f.name)
                && ReliesOn(CausesOf(ctx), f.name, id)
  }

  lemma OneRelies(findings: seq<Finding>, exceptions: seq<Exception>, graph: Option<ClosedGraph>, now: int,
                  limits: Limits, f: Finding, id: string)
    requires DistinctNames(findings) && f in findings
    ensures var ctx := ContextOf(findings, exceptions, graph, now, limits);
            UsesId(EvaluateFinding(ctx, f), id) <==>
            f.severity == High && Covered(CausesOf(ctx), f.name) && ReliesOn(CausesOf(ctx), f.name, id)
  {
    var ctx := ContextOf(findings, exceptions, graph, now, limits);
    JudgeIsSound(ctx);
    ExceptedMeansCovered(findings, exceptions, graph, now, limits, f);
    if Covered(CausesOf(ctx), f.name) {
      CoveringIdsExact(CausesOf(ctx), f.name, id);
    }
  }

  predicate UsesId(e: EvaluatedFinding, id: string) {
    e.status == Excepted && id in e.exceptionIds
  }

  lemma UsedThroughFinding(ctx: Context, findings: seq<Finding>, id: string)
    ensures id in UsedIds(EvaluateAll(ctx, findings)) <==>
            exists f :: f in findings && UsesId(EvaluateFinding(ctx, f), id)
  {
    var evaluated := EvaluateAll(ctx, findings);
    if id in UsedIds(evaluated) {
      var e :| e in evaluated && e.status == Excepted && id in e.exceptionIds;
      var i :| 0 <= i < |evaluated| && evaluated[i] == e;
      assert findings[i] in findings;
    }
    if f :| f in findings && UsesId(EvaluateFinding(ctx, f), id) {
      var i :| 0 <= i < |findings| && findings[i] == f;
      assert evaluated[i] in evaluated;
    }
  }

  lemma UsedExactly(findings: seq<Finding>, exceptions: seq<Exception>, graph: Option<ClosedGraph>, now: int,
                    limits: Limits, id: string)
    requires DistinctNames(findings)
    ensures var ctx := ContextOf(findings, exceptions, graph, now, limits);
            id in UsedIds(EvaluateAll(ctx, findings)) <==> IsRelievedBy(ctx, findings, id)
  {
    var ctx := ContextOf(findings, exceptions, graph, now, limits);
    UsedThroughFinding(ctx, findings, id);
    forall f | f in findings
      ensures UsesId(EvaluateFinding(ctx, f), id) <==>
              f.severity == High && Covered(CausesOf(ctx), f.name) && ReliesOn(CausesOf(ctx), f.name, id)
    {
      OneRelies(findings, exceptions, graph, now, limits, f, id);
    }
  }

  /** An exception is reported as expired exactly when its time has come, and as unused exactly when it is still
      active and no covered high finding relies on it; both lists keep the order of the policy. */
  lemma ReportedExceptionsExactly(findings: seq<Finding>, exceptions: seq<Exception>, graph: Option<ClosedGraph>,
                                  now: int, limits: Limits, e: Exception)
    requires DistinctNames(findings)
    ensures var r, ctx := Evaluate(findings, exceptions, graph, now, limits),
                          ContextOf(findings, exceptions, graph, now, limits);
            && (e in r.expiredExceptions <==> e in exceptions && e.expiresAt <= now)
            && (e in r.unusedExceptions <==>
                e in exceptions && now < e.expiresAt && !IsRelievedBy(ctx, findings, e.id))
            && InOrder(r.expiredExceptions, exceptions) && InOrder(r.unusedExceptions, exceptions)
  {
    var ctx := ContextOf(findings, exceptions, graph, now, limits);
    var used := UsedIds(EvaluateAll(ctx, findings));
    ActiveExactly(findings, exceptions, graph, now, limits, e);
    UsedExactly(findings, exceptions, graph, now, limits, e.id);
    FilterKeepsOrder(ExpiredAt(now), exceptions);
    FilterKeepsOrder(ActiveAt(now), exceptions);
    FilterKeepsOrder(NotAmong(used), ctx.active);
    OrderWithin(Filter(NotAmong(used), ctx.active), ctx.active, exceptions);
  }

  /** Each finding is evaluated in its place: critical ones block, high ones block unless covered, the others are
      only reported. */
  lemma FindingsExactly(findings: seq<Finding>, exceptions: seq<Exception>, graph: Option<ClosedGraph>, now: int,
                        limits: Limits, i: nat, id: string)
    requires DistinctNames(findings) && i < |findings|
    ensures |Evaluate(findings, exceptions, graph, now, limits).findings| == |findings|
    ensures var one, f := Evaluate(findings, exceptions, graph, now, limits).findings[i], findings[i];
            var c := CausesOf(ContextOf(findings, exceptions, graph, now, limits));
            && one.finding == f
            && (one.status == Informational <==> f.severity in {Info, Low, Moderate})
            && (one.status == Excepted <==> f.severity == High && Covered(c, f.name))
            && (id in one.exceptionIds <==> f.severity == High && Covered(c, f.name) && ReliesOn(c, f.name, id))
  {
    var ctx := ContextOf(findings, exceptions, graph, now, limits);
    JudgeIsSound(ctx);
    ExceptedMeansCovered(findings, exceptions, graph, now, limits, findings[i]);
    if Covered(CausesOf(ctx), findings[i].name) {
      CoveringIdsExact(CausesOf(ctx), findings[i].name, id);
    }
  }

  // ---------------------------------------------------------------- which exception is relied on

  /** The exception approves this path for the advisory, package and version. */
  predicate Approves(e: Exception, advisory: string, name: string, version: string, packages: seq<string>) {
    e.advisory == advisory && e.packageName == name && e.packageVersion == version && e.path == packages
  }

  /** `exceptions[k]` is the first to approve the path. */
  predicate IsFirstToApprove(exceptions: seq<Exception>, k: nat, advisory: string, name: string, version: string,
                             packages: seq<string>)
  {
    && k < |exceptions| && Approves(exceptions[k], advisory, name, version, packages)
    && forall j | 0 <= j < k :: !Approves(exceptions[j], advisory, name, version, packages)
  }

  lemma {:induction false} FirstAfter(earlier: seq<Exception>, later: seq<Exception>, packages: seq<string>)
    ensures FirstForPath(earlier + later, packages)
            == if FirstForPath(earlier, packages).Some? then FirstForPath(earlier, packages)
               else FirstForPath(later, packages)
  {
    if earlier == [] {
      assert earlier + later == later;
    } else {
      assert (earlier + later)[1..] == earlier[1..] + later;
      FirstAfter(earlier[1..], later, packages);
    }
  }

  /** Looking for a path among the exceptions kept by two filters finds the first one that passes both. */
  lemma {:induction false} FirstFiltered(p: Exception -> bool, q: Exception -> bool, s: seq<Exception>,
                                         packages: seq<string>)
    returns (k: nat)
    ensures k <= |s|
    ensures forall j :: 0 <= j < k ==> !(p(s[j]) && q(s[j]) && s[j].path == packages)
    ensures k < |s| ==> p(s[k]) && q(s[k]) && s[k].path == packages
    ensures FirstForPath(Filter(q, Filter(p, s)), packages) == if k < |s| then Some(s[k]) else None
  {
    if s == [] {
      return 0;
    }
    var front, last := s[..|s| - 1], s[|s| - 1];
    k := FirstFiltered(p, q, front, packages);
    FilterTwiceMore(p, q, front, last);
    assert s == front + [last];
    var kept := Filter(q, Filter(p, front));
    FirstAfter(kept, [last], packages);
    assert [last][1..] == [];
    if k == |front| && !(p(last) && q(last) && last.path == packages) {
      k := |s|;
    }
  }

  lemma FilterTwiceMore(p: Exception -> bool, q: Exception -> bool, front: seq<Exception>, last: Exception)
    ensures Filter(q, Filter(p, front + [last]))
            == if p(last) && q(last) then Filter(q, Filter(p, front)) + [last] else Filter(q, Filter(p, front))
  {
    assert (front + [last])[..|front|] == front;
    var kept := Filter(p, front);
    assert (kept + [last])[..|kept|] == kept;
  }
}
