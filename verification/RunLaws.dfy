/**
  Whole runs of the gate: which audit runs count, which outcome and exit code each situation leads to, which
  warnings are raised and how often the outside world is called.
 */
module RunLaws {
  import opened Prelude
  import opened AuditReport
  import opened Policy
  import opened PolicySchema
  import opened RootPaths
  import opened Lockfile
  import opened LockfileLaws
  import opened Coverage
  import opened EvaluationLaws
  import opened Gate
  import opened GateLaws
  import Json

  // ---------------------------------------------------------------- audit runs

  ghost predicate ListsSerious(report: Report) {
    exists f :: f in report.findings && (f.severity == High || f.severity == Critical)
  }

  /** A run yields a report exactly when it did not fail, printed a payload that is accepted as that report, and
      exited with 0, or with 1 while some listed finding is high or critical. */
  lemma AcceptedRunExactly(run: AuditRun, report: Report)
    ensures AcceptedReport(run) == Some(report) <==>
            && run.failure == None && run.stdout.Payload? && Accepts(run.stdout.value, report)
            && (run.exitCode == Some(0) || (run.exitCode == Some(1) && ListsSerious(report)))
  {
    if run.stdout.Payload? {
      var payload := run.stdout.value;
      if Accepts(payload, report) {
        AcceptsIsFunctional(payload, report, ReportOf(payload).report);
      }
      if ReportOf(payload) == Available(report) {
        AcceptedIsConsistent(payload, report);
        ZeroCounts(report);
      }
    }
  }

  lemma CleanReportIsHarmless(policyText: Text<PolicyDocument>, obtained: Option<Report>, lockText: Text<Json.Value>,
                              now: int, limits: Limits)
    requires obtained.Some? ==> Consistent(obtained.value)
    requires GateVerdict(policyText, obtained, lockText, now, limits).Decided?
    requires GateVerdict(policyText, obtained, lockText, now, limits).outcome == Clean
    ensures obtained.Some? && !ListsSerious(obtained.value)
  {
    CleanExactlyWhenCountsAreZero(policyText, obtained, lockText, now, limits);
    ZeroCounts(obtained.value);
  }

  lemma ObtainedFromFirst(judge: Judgement, runs: nat -> AuditRun, from: nat, end: nat) returns (k: nat)
    requires IsAcceptance(judge) && from <= end && ObtainedReport(judge, runs, from, end).Some?
    ensures from <= k < end && AcceptedReport(runs(k)) == ObtainedReport(judge, runs, from, end)
    ensures forall i: nat :: from <= i < k ==> AcceptedReport(runs(i)) == None
  {
    k := FirstAccepted(judge, runs, from, end).value;
    assert judge(runs(k)) == AcceptedReport(runs(k));
    forall i: nat | from <= i < k ensures AcceptedReport(runs(i)) == None {
      assert judge(runs(i)).None?;
    }
  }

  /** A clean outcome rests on a run that exited with 0 and listed nothing high or critical, after runs that yield no
      report. */
  lemma CleanRunExitedWithZero(policyText: Text<PolicyDocument>, judge: Judgement, runs: nat -> AuditRun, from: nat,
                               end: nat, lockText: Text<Json.Value>, now: int, limits: Limits)
    returns (k: nat, report: Report)
    requires IsAcceptance(judge) && from <= end
    requires GateVerdict(policyText, ObtainedReport(judge, runs, from, end), lockText, now, limits).Decided?
    requires GateVerdict(policyText, ObtainedReport(judge, runs, from, end), lockText, now, limits).outcome == Clean
    ensures from <= k < end && runs(k).exitCode == Some(0) && runs(k).failure == None && runs(k).stdout.Payload?
    ensures Accepts(runs(k).stdout.value, report) && !ListsSerious(report)
    ensures forall i: nat :: from <= i < k ==> AcceptedReport(runs(i)) == None
  {
    var obtained := ObtainedReport(judge, runs, from, end);
    if obtained.Some? {
      ObtainedIsConsistent(judge, runs, from, end);
    }
    CleanReportIsHarmless(policyText, obtained, lockText, now, limits);
    k := ObtainedFromFirst(judge, runs, from, end);
    report := obtained.value;
    AcceptedRunExactly(runs(k), report);
  }

  /** Audits are run up to the first that yields a report, or as often as allowed; every one but the last is
      followed by a warning and a pause. */
  lemma AttemptsExactly(judge: Judgement, runs: nat -> AuditRun, from: nat, end: nat)
    requires from <= end
    ensures var n := Attempts(judge, runs, from, end);
            && n <= end - from
            && (forall i: nat :: from <= i < from + n - 1 ==> judge(runs(i)).None?)
            && (if ObtainedReport(judge, runs, from, end).Some?
                then n > 0 && judge(runs(from + n - 1)) == ObtainedReport(judge, runs, from, end)
                else n == end - from && (n > 0 ==> judge(runs(end - 1)).None?))
            && Retries(judge, runs, from, end) == if n == 0 then 0 else n - 1
  {
  }

  // ---------------------------------------------------------------- files

  /** A policy file is valid exactly when it could be read, has the schema's form and its records, which are then the
      policy, are approved and have distinct ids. */
  lemma PolicyFileExactly(text: Text<Json.Value>, dates: Dates, now: int, exceptions: seq<Exception>)
    ensures PolicyRead(DecodeText(text, dates), now) == Valid(exceptions) <==>
            && text.Contents? && IsDocument(text.value, dates)
            && exceptions == RecordsIn(text.value, dates) && ValidPolicy(exceptions, now)
  {
  }

  /** A lockfile yields a graph exactly when it could be read and loads. */
  lemma LockfileExactly(text: Text<Json.Value>)
    ensures ReadLock(text).Usable? <==>
            && text.Contents? && HasLockShape(text.value)
            && forall i :: 0 <= i < |PackageFields(text.value)| ==>
                 !PackageFields(text.value)[i].value.Null? && !IsLinked(PackageFields(text.value)[i].value)
    ensures ReadLock(text).Usable? ==> Load(text.value) == Graph(ReadLock(text).graph)
    ensures ReadLock(text).Throws? <==> HasNullFirst(text)
  {
    ThrowsExactly(text);
    if text.Contents? {
      LoadExact(text.value);
    }
  }

  lemma HighCounted(report: Report)
    requires Consistent(report)
    ensures report.counts.high > 0 <==> exists f :: f in report.findings && f.severity == High
  {
    assert report.counts.At(High) == CountOf(report.findings, High);
    if f :| f in report.findings && f.severity == High {
      CountedWhenPresent(report.findings, f);
    } else {
      PresentWhenCounted(report.findings, High);
    }
  }

  /** The lockfile is needed exactly when there is something to except and something to except it with. */
  lemma NeedsGraphExactly(report: Report, exceptions: seq<Exception>)
    requires Consistent(report)
    ensures NeedsGraph(report, exceptions) <==>
            exceptions != [] && exists f :: f in report.findings && f.severity == High
    ensures LockReads(exceptions, Some(report)) == if NeedsGraph(report, exceptions) then 1 else 0
    ensures LockReads(exceptions, None) == 0
  {
    HighCounted(report);
  }

  // ---------------------------------------------------------------- outcomes and exit codes

  /** The outcome of evaluating a report. */
  lemma EvaluatedOutcomesExactly(exceptions: seq<Exception>, report: Report, lockText: Text<Json.Value>, now: int,
                                 limits: Limits)
    requires Consistent(report)
    ensures var outcome := OutcomeOf(Evaluate(report.findings, exceptions, GraphUsed(report, exceptions, lockText), now,
                                              limits));
            && (outcome == Blocked <==>
                !IsAcceptable(ContextUsed(report, exceptions, lockText, now, limits), report.findings))
            && (outcome == Clean <==> !ListsSerious(report))
            && outcome in {Blocked, Clean, AcceptedWithExceptions}
  {
    AcceptableExactly(report, exceptions, lockText, now, limits);
    OutcomeExact(report.findings, exceptions, GraphUsed(report, exceptions, lockText), now, limits);
  }

  /** The outcome under a valid policy, once a report has been obtained. */
  lemma ReportOutcomesExactly(exceptions: seq<Exception>, report: Report, lockText: Text<Json.Value>, now: int,
                              limits: Limits)
    requires Consistent(report)
    ensures var verdict := VerdictUnder(exceptions, Some(report), lockText, now, limits);
            var ctx := ContextUsed(report, exceptions, lockText, now, limits);
            && (verdict == Crash <==> LockfileStops(report, exceptions, lockText))
            && (verdict != Crash ==>
                  && (verdict.outcome == Blocked <==> !IsAcceptable(ctx, report.findings))
                  && (verdict.outcome == Clean <==> !ListsSerious(report))
                  && verdict.outcome in {Blocked, Clean, AcceptedWithExceptions})
  {
    ThrowsExactly(lockText);
    EvaluatedOutcomesExactly(exceptions, report, lockText, now, limits);
  }

  /** Every situation and its outcome: an invalid policy, no report, and otherwise what the report leads to. */
  lemma OutcomesExactly(policyText: Text<PolicyDocument>, obtained: Option<Report>, lockText: Text<Json.Value>,
                        now: int, limits: Limits)
    requires obtained.Some? ==> Consistent(obtained.value)
    ensures var policy := PolicyRead(policyText, now);
            var verdict := GateVerdict(policyText, obtained, lockText, now, limits);
            && (policy.Invalid? <==> verdict == Decided(InvalidPolicy, None))
            && (policy.Valid? && obtained.None? <==> verdict == Decided(VerificationUnavailable, None))
            && (policy.Valid? && obtained.Some? ==>
                  verdict == VerdictUnder(policy.exceptions, obtained, lockText, now, limits))
  {
    var policy := PolicyRead(policyText, now);
    if policy.Valid? && obtained.Some? {
      ReportOutcomesExactly(policy.exceptions, obtained.value, lockText, now, limits);
    }
  }

  /** The result of a run has exit code 0 exactly when the policy is valid, a report was obtained, nothing in it is
      critical and every high finding has only approved causes; otherwise it is 1. */
  lemma ExitCodeExactly(r: GateRun, earlier: seq<Warning>, policyText: Text<Json.Value>, dates: Dates,
                        judge: Judgement, runs: nat -> AuditRun, from: nat, end: nat, lockText: Text<Json.Value>,
                        now: int, limits: Limits)
    requires IsAcceptance(judge) && from <= end && r.Returned?
    requires Shows(r, GateVerdict(DecodeText(policyText, dates), ObtainedReport(judge, runs, from, end), lockText, now,
                                  limits), earlier)
    ensures var policy, obtained := PolicyRead(DecodeText(policyText, dates), now),
                                    ObtainedReport(judge, runs, from, end);
            r.result.exitCode == 0 <==>
              && policy.Valid? && obtained.Some?
              && !LockfileStops(obtained.value, policy.exceptions, lockText)
              && IsAcceptable(ContextUsed(obtained.value, policy.exceptions, lockText, now, limits),
                              obtained.value.findings)
    ensures r.result.exitCode != 0 ==> r.result.exitCode == 1
  {
    PassesExactlyWhenAcceptable(policyText, dates, judge, runs, from, end, lockText, now, limits);
  }

  // ---------------------------------------------------------------- warnings

  lemma EvaluationWarningsExactly(e: Evaluation, id: string)
    ensures ExceptionExpired(id) in EvaluationWarnings(e) <==> exists x :: x in e.expiredExceptions && x.id == id
    ensures ExceptionUnused(id) in EvaluationWarnings(e) <==> exists x :: x in e.unusedExceptions && x.id == id
    ensures forall w :: w in EvaluationWarnings(e) ==> w.ExceptionExpired? || w.ExceptionUnused?
    ensures |EvaluationWarnings(e)| == |e.expiredExceptions| + |e.unusedExceptions|
  {
    var expired, unused, all := e.expiredExceptions, e.unusedExceptions, EvaluationWarnings(e);
    if x :| x in expired && x.id == id {
      var i :| 0 <= i < |expired| && expired[i] == x;
      assert all[i] == ExceptionExpired(id);
    }
    if x :| x in unused && x.id == id {
      var i :| 0 <= i < |unused| && unused[i] == x;
      assert all[|expired| + i] == ExceptionUnused(id);
    }
  }

  /** The warning is raised before any evaluation: for the k-th attempt if another one followed, and for a lockfile
      that was needed but gave no graph. */
  ghost predicate IsEarlyWarning(w: Warning, retries: nat, exceptions: seq<Exception>, obtained: Option<Report>,
                                 lockText: Text<Json.Value>)
  {
    match w
    case AttemptFailed(k) => 1 <= k <= retries
    case LockfileUnusable =>
      && exceptions != [] && obtained.Some?
      && (exists f :: f in obtained.value.findings && f.severity == High)
      && !ReadLock(lockText).Usable? && !ReadLock(lockText).Throws?
    case _ => false
  }

  lemma EarlyWarningsExactly(w: Warning, retries: nat, exceptions: seq<Exception>, obtained: Option<Report>,
                             lockText: Text<Json.Value>)
    requires obtained.Some? ==> Consistent(obtained.value)
    ensures w in AttemptWarnings(retries) + LockWarnings(exceptions, obtained, lockText)
            <==> IsEarlyWarning(w, retries, exceptions, obtained, lockText)
  {
    if obtained.Some? {
      HighCounted(obtained.value);
    }
    if w.AttemptFailed? && 1 <= w.attempt <= retries {
      assert AttemptWarnings(retries)[w.attempt - 1] == w;
    }
  }

  /** The warning is raised about an exception: that it has expired, or that it is active and nothing relies on it. */
  ghost predicate IsExceptionWarning(w: Warning, exceptions: seq<Exception>, report: Report, lockText: Text<Json.Value>,
                                     now: int, limits: Limits)
  {
    match w
    case ExceptionExpired(id) => exists e :: e in exceptions && e.id == id && e.expiresAt <= now
    case ExceptionUnused(id) =>
      exists e :: e in exceptions && e.id == id && now < e.expiresAt
                  && !IsRelievedBy(ContextUsed(report, exceptions, lockText, now, limits), report.findings, id)
    case _ => false
  }

  lemma ExceptionWarningsExactly(w: Warning, exceptions: seq<Exception>, report: Report, lockText: Text<Json.Value>,
                                 now: int, limits: Limits)
    requires DistinctNames(report.findings)
    ensures w in EvaluationWarnings(Evaluate(report.findings, exceptions, GraphUsed(report, exceptions, lockText), now,
                                             limits))
            <==> IsExceptionWarning(w, exceptions, report, lockText, now, limits)
  {
    var graph := GraphUsed(report, exceptions, lockText);
    var r := Evaluate(report.findings, exceptions, graph, now, limits);
    forall e
      ensures e in r.expiredExceptions <==> e in exceptions && e.expiresAt <= now
      ensures e in r.unusedExceptions <==>
              e in exceptions && now < e.expiresAt
              && !IsRelievedBy(ContextUsed(report, exceptions, lockText, now, limits), report.findings, e.id)
    {
      ReportedExceptionsExactly(report.findings, exceptions, graph, now, limits, e);
    }
    EvaluationWarningsExactly(r, match w case ExceptionExpired(id) => id case ExceptionUnused(id) => id case _ => "");
  }

  lemma ShownWarningsExactly(r: GateRun, w: Warning, retries: nat, exceptions: seq<Exception>, obtained: Option<Report>,
                             lockText: Text<Json.Value>, now: int, limits: Limits)
    requires obtained.Some? ==> Consistent(obtained.value)
    requires r.Returned? && Shows(r, VerdictUnder(exceptions, obtained, lockText, now, limits),
                                  AttemptWarnings(retries) + LockWarnings(exceptions, obtained, lockText))
    ensures w in r.result.warnings <==>
            || IsEarlyWarning(w, retries, exceptions, obtained, lockText)
            || (obtained.Some? && IsExceptionWarning(w, exceptions, obtained.value, lockText, now, limits))
  {
    EarlyWarningsExactly(w, retries, exceptions, obtained, lockText);
    if obtained.Some? {
      ExceptionWarningsExactly(w, exceptions, obtained.value, lockText, now, limits);
    }
  }

  /** The warnings of a run under a valid policy. */
  lemma WarningsExactly(deps: AuditGateDeps, r: GateRun, w: Warning, from: nat, maxAttempts: nat, limits: Limits)
    requires PolicyIn(deps).Valid? && r.Returned?
    requires Shows(r, VerdictFrom(deps, from, maxAttempts, limits),
                   WarningsFrom(AcceptedReport, deps, PolicyIn(deps).exceptions, from, maxAttempts))
    ensures var exceptions, obtained := PolicyIn(deps).exceptions, ReportFrom(AcceptedReport, deps, from, maxAttempts);
            w in r.result.warnings <==>
            || IsEarlyWarning(w, RetriesFrom(AcceptedReport, deps, from, maxAttempts), exceptions, obtained,
                              deps.lockText)
            || (obtained.Some? && IsExceptionWarning(w, exceptions, obtained.value, deps.lockText, deps.clock, limits))
  {
    var obtained := ReportFrom(AcceptedReport, deps, from, maxAttempts);
    if obtained.Some? {
      ObtainedIsConsistent(AcceptedReport, deps.runs, from, from + maxAttempts);
    }
    ShownWarningsExactly(r, w, RetriesFrom(AcceptedReport, deps, from, maxAttempts), PolicyIn(deps).exceptions,
                         obtained, deps.lockText, deps.clock, limits);
  }

  /** Warnings come in this order: attempts, the lockfile, expired exceptions, unused exceptions. */
  function Rank(w: Warning): nat {
    match w
    case AttemptFailed(_) => 0
    case LockfileUnusable => 1
    case ExceptionExpired(_) => 2
    case ExceptionUnused(_) => 3
  }

  predicate IsRanked(warnings: seq<Warning>) {
    forall i, j | 0 <= i < j < |warnings| :: Rank(warnings[i]) <= Rank(warnings[j])
  }

  lemma JoinRanked(earlier: seq<Warning>, later: seq<Warning>, bound: nat)
    requires IsRanked(earlier) && IsRanked(later)
    requires (forall w :: w in earlier ==> Rank(w) <= bound) && (forall w :: w in later ==> Rank(w) >= bound)
    ensures IsRanked(earlier + later)
  {
    var all := earlier + later;
    forall i, j | 0 <= i < j < |all| ensures Rank(all[i]) <= Rank(all[j]) {
      assert i < |earlier| ==> all[i] in earlier;
      assert j >= |earlier| ==> all[j] == later[j - |earlier|] && all[j] in later;
    }
  }

  lemma EarlyRanked(retries: nat, exceptions: seq<Exception>, obtained: Option<Report>, lockText: Text<Json.Value>)
    ensures IsRanked(AttemptWarnings(retries) + LockWarnings(exceptions, obtained, lockText))
    ensures forall w :: w in AttemptWarnings(retries) + LockWarnings(exceptions, obtained, lockText) ==> Rank(w) <= 1
  {
    JoinRanked(AttemptWarnings(retries), LockWarnings(exceptions, obtained, lockText), 0);
  }

  lemma EvaluationRanked(e: Evaluation)
    ensures IsRanked(EvaluationWarnings(e)) && forall w :: w in EvaluationWarnings(e) ==> Rank(w) >= 2
  {
  }

  lemma WarningsInOrder(r: GateRun, retries: nat, exceptions: seq<Exception>, obtained: Option<Report>,
                        lockText: Text<Json.Value>, now: int, limits: Limits)
    requires r.Returned? && Shows(r, VerdictUnder(exceptions, obtained, lockText, now, limits),
                                  AttemptWarnings(retries) + LockWarnings(exceptions, obtained, lockText))
    ensures IsRanked(r.result.warnings)
  {
    EarlyRanked(retries, exceptions, obtained, lockText);
    var evaluation := r.result.evaluation;
    if evaluation.Some? {
      EvaluationRanked(evaluation.value);
      JoinRanked(AttemptWarnings(retries) + LockWarnings(exceptions, obtained, lockText),
                 EvaluationWarnings(evaluation.value), 1);
    }
  }

  // ---------------------------------------------------------------- effects

  /** `n` audits are run from number `from` on: none but the last yields a report, and the last does unless it is the
      last one allowed. */
  ghost predicate RunsAudits(judge: Judgement, runs: nat -> AuditRun, from: nat, maxAttempts: nat, n: nat) {
    && n <= maxAttempts
    && (forall i: nat :: from <= i < from + n - 1 ==> judge(runs(i)) == None)
    && (n < maxAttempts ==> n > 0 && judge(runs(from + n - 1)) != None)
  }

  /** A pause of five seconds more after each audit but the last. */
  predicate Pauses(slept: seq<nat>, n: nat) {
    |slept| == (if n == 0 then 0 else n - 1) && forall i | 0 <= i < |slept| :: slept[i] == 5000 * (i + 1)
  }

  lemma EffectsExactly(judge: Judgement, deps: AuditGateDeps, from: nat, maxAttempts: nat)
    ensures var n, obtained := AttemptsFrom(judge, deps, from, maxAttempts), ReportFrom(judge, deps, from, maxAttempts);
            && RunsAudits(judge, deps.runs, from, maxAttempts, n)
            && Pauses(Backoff(RetriesFrom(judge, deps, from, maxAttempts)), n)
            && obtained == (if n > 0 then judge(deps.runs(from + n - 1)) else None)
  {
    AttemptsExactly(judge, deps.runs, from, from + maxAttempts);
  }
}
