/**
  The script that ends the build: it runs the gate with the limits and attempts of the program, prints the warnings
  and exits with the gate's code, or with 1 when an exception is not caught.
 */
module Ci {
  import opened AuditReport
  import opened RootPaths
  import opened Gate
  import opened GateLaws
  import opened RunLaws

  /** What the gate may spend on one package. */
  const BUDGET := Limits(200, 100_000)

  /** The policy is valid, a report was obtained, the lockfile does not stop the run, nothing is critical and every
      high finding has only approved causes. */
  ghost predicate MayProceed(deps: AuditGateDeps, from: nat) {
    var policy, obtained := PolicyIn(deps), ReportFrom(AcceptedReport, deps, from, 3);
    && policy.Valid? && obtained.Some?
    && !LockfileStops(obtained.value, policy.exceptions, deps.lockText)
    && IsAcceptable(ContextUsed(obtained.value, policy.exceptions, deps.lockText, deps.clock, BUDGET),
                    obtained.value.findings)
  }

  /** The lockfile is needed: some finding is high and the policy has exceptions. */
  ghost predicate NeedsLockfile(deps: AuditGateDeps, from: nat) {
    && PolicyIn(deps).Valid? && PolicyIn(deps).exceptions != [] && ReportFrom(AcceptedReport, deps, from, 3).Some?
    && exists f :: f in ReportFrom(AcceptedReport, deps, from, 3).value.findings && f.severity == High
  }

  /** Under an invalid policy nothing is run; otherwise up to three audits, with growing pauses between them, and the
      lockfile is read once if it is needed. */
  method RunCi(deps: AuditGateDeps) returns (status: nat, warnings: seq<Warning>)
    modifies deps
    ensures status == 0 <==> MayProceed(deps, old(deps.calls))
    ensures status != 0 ==> status == 1
    ensures PolicyIn(deps).Invalid? ==> unchanged(deps) && warnings == []
    ensures PolicyIn(deps).Valid? ==>
              && deps.calls >= old(deps.calls)
              && RunsAudits(AcceptedReport, deps.runs, old(deps.calls), 3, deps.calls - old(deps.calls))
              && |deps.slept| >= |old(deps.slept)| && deps.slept[..|old(deps.slept)|] == old(deps.slept)
              && Pauses(deps.slept[|old(deps.slept)|..], deps.calls - old(deps.calls))
              && deps.lockReads == old(deps.lockReads) + if NeedsLockfile(deps, old(deps.calls)) then 1 else 0
  {
    ghost var from := deps.calls;
    var run := RunAuditGate(deps, MAX_AUDIT_ATTEMPTS, LIMITS);
    StatusExactly(deps, run, from);
    if PolicyIn(deps).Valid? {
      EffectsExactly(AcceptedReport, deps, from, 3);
      LockfileNeeded(deps, from);
    }
    match run {
      case Threw => status, warnings := 1, [];
      case Returned(result) => status, warnings := result.exitCode, result.warnings;
    }
  }

  lemma LockfileNeeded(deps: AuditGateDeps, from: nat)
    requires PolicyIn(deps).Valid?
    ensures LockReads(PolicyIn(deps).exceptions, ReportFrom(AcceptedReport, deps, from, 3))
            == if NeedsLockfile(deps, from) then 1 else 0
  {
    if ReportFrom(AcceptedReport, deps, from, 3).Some? {
      ObtainedIsConsistent(AcceptedReport, deps.runs, from, from + 3);
      NeedsGraphExactly(ReportFrom(AcceptedReport, deps, from, 3).value, PolicyIn(deps).exceptions);
    }
  }

  /** What the run ends with, from how it shows the verdict. */
  lemma StatusExactly(deps: AuditGateDeps, run: GateRun, from: nat)
    requires exists earlier :: Shows(run, VerdictFrom(deps, from, MAX_AUDIT_ATTEMPTS, LIMITS), earlier)
    ensures run.Returned? ==> run.result.exitCode == 0 || run.result.exitCode == 1
    ensures run.Returned? && run.result.exitCode == 0 <==> MayProceed(deps, from)
  {
    PassesExactlyWhenAcceptable(deps.policyText, deps.dates, AcceptedReport, deps.runs, from, from + MAX_AUDIT_ATTEMPTS,
                                deps.lockText, deps.clock, LIMITS);
  }
}
