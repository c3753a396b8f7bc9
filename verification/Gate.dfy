/**
  The dependency-security gate: read the policy, obtain an acceptable audit report within a bounded
  number of attempts, load the lockfile only when an exception could matter, and decide. The outside
  world (npm, the two files, the clock) is an oracle that answers calls and counts them.
 */
module Gate {
  import opened Prelude
  import opened AuditReport
  import opened Policy
  import opened PolicySchema
  import opened RootPaths
  import opened Lockfile
  import opened Coverage
  import opened Evaluator
  import Json

  const MAX_AUDIT_ATTEMPTS := 3
  const BACKOFF_MS := 5_000

  datatype Failure = Timeout | SpawnError

  /** Standard output of one audit run, after trimming and `JSON.parse`. */
  datatype Output = NoJson | Payload(value: Json.Value)

  datatype AuditRun = AuditRun(stdout: Output, exitCode: Option<int>, failure: Option<Failure>)

  /** A file the gate reads. */
  datatype Text<T> = Unreadable | NotJson | Contents(value: T)

  datatype Warning =
    | AttemptFailed(attempt: nat)
    | LockfileUnusable
    | ExceptionExpired(id: string)
    | ExceptionUnused(id: string)

  datatype Outcome = Clean | AcceptedWithExceptions | Blocked | VerificationUnavailable | InvalidPolicy

  /** `evaluation` is what the printed lines report. */
  datatype GateResult = GateResult(outcome: Outcome, exitCode: nat, evaluation: Option<Evaluation>,
                                   warnings: seq<Warning>)

  /** `Threw`: an uncaught exception ends the process, with a failing exit status. */
  datatype GateRun = Returned(result: GateResult) | Threw

  class AuditGateDeps {
    const runs: nat -> AuditRun
    const policyText: Text<Json.Value>
    const dates: Dates
    const lockText: Text<Json.Value>
    const clock: int
    var calls: nat
    var slept: seq<nat>
    var lockReads: nat

    constructor (runs: nat -> AuditRun, policyText: Text<Json.Value>, dates: Dates, lockText: Text<Json.Value>,
                 clock: int)
      ensures this.runs == runs && this.policyText == policyText && this.dates == dates
      ensures this.lockText == lockText && this.clock == clock
      ensures calls == 0 && slept == [] && lockReads == 0
    {
      this.runs, this.policyText, this.dates, this.lockText, this.clock := runs, policyText, dates, lockText, clock;
      calls, slept, lockReads := 0, [], 0;
    }

    method RunAudit() returns (run: AuditRun)
      modifies this`calls
      ensures run == runs(old(calls)) && calls == old(calls) + 1
    {
      run, calls := runs(calls), calls + 1;
    }

    method Sleep(ms: nat)
      modifies this`slept
      ensures slept == old(slept) + [ms]
    {
      slept := slept + [ms];
    }

    method ReadLockfile() returns (text: Text<Json.Value>)
      modifies this`lockReads
      ensures text == lockText && lockReads == old(lockReads) + 1
    {
      text, lockReads := lockText, lockReads + 1;
    }
  }

  // ---------------------------------------------------------------- obtaining a report

  /** The report of a run whose exit status it explains. */
  ghost function AcceptedReport(run: AuditRun): Option<Report> {
    if run.failure.Some? || run.stdout.NoJson? then None
    else match ReportOf(run.stdout.value)
      case Unavailable => None
      case Available(report) =>
        if run.exitCode == Some(0) || (run.exitCode == Some(1) && report.counts.high + report.counts.critical > 0)
        then Some(report) else None
  }

  /** How runs are judged. */
  type Judgement = AuditRun -> Option<Report>

  ghost predicate IsAcceptance(judge: Judgement) {
    forall run {:trigger AcceptedReport(run)} :: judge(run) == AcceptedReport(run)
  }

  /** The first run, numbered from `from` and before `end`, that yields an acceptable report. */
  ghost function FirstAccepted(judge: Judgement, runs: nat -> AuditRun, from: nat, end: nat): (r: Option<nat>)
    requires from <= end
    ensures r.Some? ==> from <= r.value < end && judge(runs(r.value)).Some?
    ensures forall i: nat :: from <= i < (if r.Some? then r.value else end) ==> judge(runs(i)).None?
    decreases end - from
  {
    if from == end then None
    else if judge(runs(from)).Some? then Some(from)
    else FirstAccepted(judge, runs, from + 1, end)
  }

  ghost function ObtainedReport(judge: Judgement, runs: nat -> AuditRun, from: nat, end: nat): Option<Report>
    requires from <= end
  {
    match FirstAccepted(judge, runs, from, end)
    case Some(k) => judge(runs(k))
    case None => None
  }

  /** How many attempts are made. */
  ghost function Attempts(judge: Judgement, runs: nat -> AuditRun, from: nat, end: nat): nat
    requires from <= end
  {
    match FirstAccepted(judge, runs, from, end)
    case Some(k) => k + 1 - from
    case None => end - from
  }

  /** How many attempts fail before the last one made. */
  ghost function Retries(judge: Judgement, runs: nat -> AuditRun, from: nat, end: nat): nat
    requires from <= end
  {
    if from == end then 0 else Attempts(judge, runs, from, end) - 1
  }

  function AttemptWarnings(k: nat): seq<Warning> {
    seq(k, i requires 0 <= i < k => AttemptFailed(i + 1))
  }

  function Backoff(k: nat): seq<nat> {
    seq(k, i requires 0 <= i < k => BACKOFF_MS * (i + 1))
  }

  method ReportOfRun(run: AuditRun) returns (r: Option<Report>)
    ensures r == AcceptedReport(run)
  {
    if run.failure.Some? || run.stdout.NoJson? {
      return None;
    }
    var parsed := ParsePayload(run.stdout.value);
    if parsed.Unavailable? {
      return None;
    }
    var blockingLevel := parsed.report.counts.high + parsed.report.counts.critical;
    if run.exitCode == Some(0) || (run.exitCode == Some(1) && blockingLevel > 0) {
      return Some(parsed.report);
    }
    return None;
  }

  /** After `made` attempts without an acceptable report: all but a final one are retried. */
  function RetriedAfter(made: nat, maxAttempts: nat): nat {
    if made == maxAttempts && made > 0 then made - 1 else made
  }

  lemma RetryStep(made: nat, maxAttempts: nat)
    requires made < maxAttempts
    ensures RetriedAfter(made, maxAttempts) == made
    ensures made + 1 == maxAttempts ==> RetriedAfter(made + 1, maxAttempts) == made
    ensures made + 1 < maxAttempts ==> RetriedAfter(made + 1, maxAttempts) == made + 1
    ensures AttemptWarnings(made + 1) == AttemptWarnings(made) + [AttemptFailed(made + 1)]
    ensures Backoff(made + 1) == Backoff(made) + [BACKOFF_MS * (made + 1)]
  {
  }

  /** One attempt; when it fails and is not the last, warn and back off. */
  method Attempt(deps: AuditGateDeps, ghost judge: Judgement, attempt: nat, maxAttempts: nat, before: seq<Warning>)
    returns (report: Option<Report>, warnings: seq<Warning>)
    requires IsAcceptance(judge)
    modifies deps`calls, deps`slept
    ensures report == judge(deps.runs(old(deps.calls))) && deps.calls == old(deps.calls) + 1
    ensures if report.None? && attempt < maxAttempts
            then warnings == before + [AttemptFailed(attempt)] && deps.slept == old(deps.slept) + [BACKOFF_MS * attempt]
            else warnings == before && deps.slept == old(deps.slept)
  {
    warnings := before;
    var run := deps.RunAudit();
    report := ReportOfRun(run);
    if report.None? && attempt < maxAttempts {
      warnings := warnings + [AttemptFailed(attempt)];
      deps.Sleep(BACKOFF_MS * attempt);
    }
  }

  lemma AttemptStep(judge: Judgement, runs: nat -> AuditRun, next: nat, end: nat)
    requires next < end
    ensures FirstAccepted(judge, runs, next, end) ==
            if judge(runs(next)).Some? then Some(next) else FirstAccepted(judge, runs, next + 1, end)
  {
  }

  lemma AcceptedAt(judge: Judgement, runs: nat -> AuditRun, from: nat, end: nat, k: nat)
    requires from <= end && FirstAccepted(judge, runs, from, end) == Some(k)
    ensures ObtainedReport(judge, runs, from, end) == judge(runs(k))
    ensures Attempts(judge, runs, from, end) == k + 1 - from && Retries(judge, runs, from, end) == k - from
  {
  }

  lemma NoneAccepted(judge: Judgement, runs: nat -> AuditRun, from: nat, end: nat)
    requires from <= end && FirstAccepted(judge, runs, from, end).None?
    ensures ObtainedReport(judge, runs, from, end).None?
    ensures Attempts(judge, runs, from, end) == end - from
    ensures Retries(judge, runs, from, end) == RetriedAfter(end - from, end - from)
  {
  }

  /** Runs made, retry warnings raised and pauses taken so far; there are no warnings at the start. */
  datatype Effort = Effort(calls: nat, warnings: seq<Warning>, slept: seq<nat>)

  /** From `start` on, `made` attempts have been made and none was acceptable. */
  ghost predicate Trying(judge: Judgement, runs: nat -> AuditRun, start: Effort, made: nat, maxAttempts: nat,
                         effort: Effort)
  {
    && made <= maxAttempts && effort.calls == start.calls + made
    && FirstAccepted(judge, runs, start.calls, start.calls + maxAttempts)
       == FirstAccepted(judge, runs, effort.calls, start.calls + maxAttempts)
    && effort.warnings == AttemptWarnings(RetriedAfter(made, maxAttempts))
    && effort.slept == start.slept + Backoff(RetriedAfter(made, maxAttempts))
  }

  /** What obtaining a report from `start` on leads to. */
  ghost predicate Obtains(judge: Judgement, runs: nat -> AuditRun, start: Effort, maxAttempts: nat,
                          report: Option<Report>, effort: Effort)
  {
    var end := start.calls + maxAttempts;
    && report == ObtainedReport(judge, runs, start.calls, end)
    && effort.calls == start.calls + Attempts(judge, runs, start.calls, end)
    && effort.warnings == AttemptWarnings(Retries(judge, runs, start.calls, end))
    && effort.slept == start.slept + Backoff(Retries(judge, runs, start.calls, end))
  }

  /** One more failed attempt. */
  function Failing(effort: Effort, attempt: nat, maxAttempts: nat): Effort {
    if attempt < maxAttempts
    then Effort(effort.calls + 1, effort.warnings + [AttemptFailed(attempt)], effort.slept + [BACKOFF_MS * attempt])
    else effort.(calls := effort.calls + 1)
  }

  lemma FailedAttempt(judge: Judgement, runs: nat -> AuditRun, start: Effort, made: nat, maxAttempts: nat,
                      effort: Effort)
    requires Trying(judge, runs, start, made, maxAttempts, effort) && made < maxAttempts
    requires judge(runs(effort.calls)).None?
    ensures Trying(judge, runs, start, made + 1, maxAttempts, Failing(effort, made + 1, maxAttempts))
  {
    RetryStep(made, maxAttempts);
    AttemptStep(judge, runs, effort.calls, start.calls + maxAttempts);
  }

  lemma AcceptedAttempt(judge: Judgement, runs: nat -> AuditRun, start: Effort, made: nat, maxAttempts: nat,
                        effort: Effort)
    requires Trying(judge, runs, start, made, maxAttempts, effort) && made < maxAttempts
    requires judge(runs(effort.calls)).Some?
    ensures Obtains(judge, runs, start, maxAttempts, judge(runs(effort.calls)), effort.(calls := effort.calls + 1))
  {
    RetryStep(made, maxAttempts);
    AttemptStep(judge, runs, effort.calls, start.calls + maxAttempts);
    AcceptedAt(judge, runs, start.calls, start.calls + maxAttempts, effort.calls);
  }

  lemma AllAttemptsFailed(judge: Judgement, runs: nat -> AuditRun, start: Effort, maxAttempts: nat, effort: Effort)
    requires Trying(judge, runs, start, maxAttempts, maxAttempts, effort)
    ensures Obtains(judge, runs, start, maxAttempts, None, effort)
  {
    NoneAccepted(judge, runs, start.calls, start.calls + maxAttempts);
  }

  lemma NothingTried(judge: Judgement, runs: nat -> AuditRun, start: Effort, maxAttempts: nat)
    requires start.warnings == []
    ensures Trying(judge, runs, start, 0, maxAttempts, start)
  {
  }

  method ObtainReport(deps: AuditGateDeps, ghost judge: Judgement, maxAttempts: nat)
    returns (r: Option<Report>, warnings: seq<Warning>)
    requires IsAcceptance(judge)
    modifies deps`calls, deps`slept
    ensures Obtains(judge, deps.runs, Effort(old(deps.calls), [], old(deps.slept)), maxAttempts, r,
                    Effort(deps.calls, warnings, deps.slept))
  {
    r, warnings := None, [];
    ghost var start := Effort(deps.calls, [], deps.slept);
    NothingTried(judge, deps.runs, start, maxAttempts);
    for attempt := 1 to maxAttempts + 1
      invariant Trying(judge, deps.runs, start, attempt - 1, maxAttempts, Effort(deps.calls, warnings, deps.slept))
    {
      ghost var before := Effort(deps.calls, warnings, deps.slept);
      r, warnings := Attempt(deps, judge, attempt, maxAttempts, warnings);
      if r.Some? {
        AcceptedAttempt(judge, deps.runs, start, attempt - 1, maxAttempts, before);
        return;
      }
      FailedAttempt(judge, deps.runs, start, attempt - 1, maxAttempts, before);
    }
    AllAttemptsFailed(judge, deps.runs, start, maxAttempts, Effort(deps.calls, warnings, deps.slept));
    return None, warnings;
  }

  // ---------------------------------------------------------------- the decision

  ghost function PolicyRead(text: Text<PolicyDocument>, now: int): PolicyResult {
    if text.Contents? then PolicyOf(text.value, now) else Invalid
  }

  /** What reading the lockfile yields: a graph, no graph, or an uncaught exception. */
  datatype LockRead = Usable(graph: ClosedGraph) | Unusable | Throws

  function ReadLock(text: Text<Json.Value>): LockRead {
    if !text.Contents? then Unusable
    else match Load(text.value)
      case Graph(g) => Usable(g)
      case Refused => Unusable
      case Crashed => Throws
  }

  function GraphFrom(read: LockRead): Option<ClosedGraph>
    requires !read.Throws?
  {
    if read.Usable? then Some(read.graph) else None
  }

  predicate NeedsGraph(report: Report, exceptions: seq<Exception>) {
    report.counts.high > 0 && |exceptions| > 0
  }

  function OutcomeOf(e: Evaluation): Outcome {
    if exists f :: f in e.findings && f.status == Blocking then Blocked
    else if exists f :: f in e.findings && f.status == Excepted then AcceptedWithExceptions
    else Clean
  }

  /** An outcome with the evaluation behind it, or an uncaught exception. */
  datatype Verdict = Decided(outcome: Outcome, evaluation: Option<Evaluation>) | Crash

  function Judge(report: Report, exceptions: seq<Exception>, read: LockRead, now: int, limits: Limits): Verdict {
    if read.Throws? then Crash
    else
      var e := Evaluate(report.findings, exceptions, GraphFrom(read), now, limits);
      Decided(OutcomeOf(e), Some(e))
  }

  /** The gate as written: the lockfile is read only when an exception could matter. */
  function VerdictUnder(exceptions: seq<Exception>, obtained: Option<Report>, lockText: Text<Json.Value>, now: int,
                        limits: Limits): Verdict
  {
    match obtained
    case None => Decided(VerificationUnavailable, None)
    case Some(report) =>
      Judge(report, exceptions, if NeedsGraph(report, exceptions) then ReadLock(lockText) else Unusable, now, limits)
  }

  ghost function GateVerdict(policyText: Text<PolicyDocument>, obtained: Option<Report>, lockText: Text<Json.Value>,
                             now: int, limits: Limits): Verdict
  {
    match PolicyRead(policyText, now)
    case Invalid => Decided(InvalidPolicy, None)
    case Valid(exceptions) => VerdictUnder(exceptions, obtained, lockText, now, limits)
  }

  /** A simpler gate that always reads the lockfile. */
  ghost function SimpleVerdict(policyText: Text<PolicyDocument>, obtained: Option<Report>, lockText: Text<Json.Value>,
                               now: int, limits: Limits): Verdict
  {
    match PolicyRead(policyText, now)
    case Invalid => Decided(InvalidPolicy, None)
    case Valid(exceptions) =>
      match obtained
      case None => Decided(VerificationUnavailable, None)
      case Some(report) => Judge(report, exceptions, ReadLock(lockText), now, limits)
  }

  function EvaluationWarnings(e: Evaluation): seq<Warning> {
    seq(|e.expiredExceptions|, i requires 0 <= i < |e.expiredExceptions| => ExceptionExpired(e.expiredExceptions[i].id))
    + seq(|e.unusedExceptions|, i requires 0 <= i < |e.unusedExceptions| => ExceptionUnused(e.unusedExceptions[i].id))
  }

  method LoadGraph(deps: AuditGateDeps) returns (threw: bool, graph: LockfileGraph?, warnings: seq<Warning>)
    modifies deps`lockReads
    ensures threw == ReadLock(deps.lockText).Throws?
    ensures !threw ==> if ReadLock(deps.lockText).Usable?
                       then graph != null && fresh(graph) && graph.Valid()
                            && graph.Model() == ReadLock(deps.lockText).graph && warnings == []
                       else graph == null && warnings == [LockfileUnusable]
    ensures deps.lockReads == old(deps.lockReads) + 1
  {
    threw, graph, warnings := false, null, [];
    var text := deps.ReadLockfile();
    if !text.Contents? {
      return false, null, [LockfileUnusable];
    }
    var parsed := Parse(text.value);
    match parsed {
      case Parsed(g) => graph := g;
      case ParseRefused => warnings := [LockfileUnusable];
      case ParseCrashed => threw := true;
    }
  }

  method Conclude(evaluation: Evaluation, warnings: seq<Warning>) returns (r: GateResult)
    ensures r.outcome == OutcomeOf(evaluation) && r.evaluation == Some(evaluation)
    ensures r.exitCode == if r.outcome in {Clean, AcceptedWithExceptions} then 0 else 1
    ensures r.warnings == warnings + EvaluationWarnings(evaluation)
  {
    var all := warnings + EvaluationWarnings(evaluation);
    if exists f :: f in evaluation.findings && f.status == Blocking {
      return GateResult(Blocked, 1, Some(evaluation), all);
    }
    if exists f :: f in evaluation.findings && f.status == Excepted {
      return GateResult(AcceptedWithExceptions, 0, Some(evaluation), all);
    }
    return GateResult(Clean, 0, Some(evaluation), all);
  }

  /** `r` is what a caller sees of `verdict`, after the `earlier` warnings; only the two passing outcomes let the
      build proceed. */
  ghost predicate Shows(r: GateRun, verdict: Verdict, earlier: seq<Warning>) {
    match verdict
    case Crash => r.Threw?
    case Decided(outcome, evaluation) =>
      && r.Returned? && r.result.outcome == outcome && r.result.evaluation == evaluation
      && r.result.exitCode == (if outcome in {Clean, AcceptedWithExceptions} then 0 else 1)
      && r.result.warnings == earlier + if evaluation.Some? then EvaluationWarnings(evaluation.value) else []
  }

  function LockWarnings(exceptions: seq<Exception>, obtained: Option<Report>,
                        lockText: Text<Json.Value>): seq<Warning>
  {
    if obtained.Some? && NeedsGraph(obtained.value, exceptions) && ReadLock(lockText).Unusable?
      then [LockfileUnusable] else []
  }

  /** The lockfile is read at most once, and only when an exception could matter. */
  function LockReads(exceptions: seq<Exception>, obtained: Option<Report>): nat {
    if obtained.Some? && NeedsGraph(obtained.value, exceptions) then 1 else 0
  }

  /** Everything after a report has been obtained under a valid policy. */
  method JudgeReport(deps: AuditGateDeps, report: Report, exceptions: seq<Exception>, limits: Limits,
                     warnings: seq<Warning>)
    returns (r: GateRun)
    requires DistinctNames(report.findings)
    modifies deps`lockReads
    ensures Shows(r, VerdictUnder(exceptions, Some(report), deps.lockText, deps.clock, limits),
                  warnings + LockWarnings(exceptions, Some(report), deps.lockText))
    ensures deps.lockReads == old(deps.lockReads) + LockReads(exceptions, Some(report))
  {
    var graph: LockfileGraph? := null;
    var soFar := warnings + [];
    ghost var read := Unusable;
    if NeedsGraph(report, exceptions) {
      var threw, loaded, lockWarnings := LoadGraph(deps);
      if threw {
        return Threw;
      }
      graph, read := loaded, ReadLock(deps.lockText);
      soFar := warnings + lockWarnings;
    }
    var evaluation := EvaluateAuditReport(report.findings, exceptions, graph, GraphFrom(read), deps.clock, limits);
    var result := Conclude(evaluation, soFar);
    return Returned(result);
  }

  // ---------------------------------------------------------------- the whole run

  /** The report the gate obtains when `from` runs have already been made. */
  ghost function ReportFrom(judge: Judgement, deps: AuditGateDeps, from: nat, maxAttempts: nat): Option<Report> {
    ObtainedReport(judge, deps.runs, from, from + maxAttempts)
  }

  /** How many audits it runs for that. */
  ghost function AttemptsFrom(judge: Judgement, deps: AuditGateDeps, from: nat, maxAttempts: nat): nat {
    Attempts(judge, deps.runs, from, from + maxAttempts)
  }

  /** How often it warns and pauses before another one. */
  ghost function RetriesFrom(judge: Judgement, deps: AuditGateDeps, from: nat, maxAttempts: nat): nat {
    Retries(judge, deps.runs, from, from + maxAttempts)
  }

  /** The warnings raised before any evaluation. */
  ghost function WarningsFrom(judge: Judgement, deps: AuditGateDeps, exceptions: seq<Exception>, from: nat,
                              maxAttempts: nat): seq<Warning>
  {
    AttemptWarnings(RetriesFrom(judge, deps, from, maxAttempts))
    + LockWarnings(exceptions, ReportFrom(judge, deps, from, maxAttempts), deps.lockText)
  }

  lemma ObtainsFrom(judge: Judgement, deps: AuditGateDeps, start: Effort, maxAttempts: nat, report: Option<Report>,
                    effort: Effort)
    requires Obtains(judge, deps.runs, start, maxAttempts, report, effort)
    ensures report == ReportFrom(judge, deps, start.calls, maxAttempts)
    ensures effort.calls == start.calls + AttemptsFrom(judge, deps, start.calls, maxAttempts)
    ensures effort.warnings == AttemptWarnings(RetriesFrom(judge, deps, start.calls, maxAttempts))
    ensures effort.slept == start.slept + Backoff(RetriesFrom(judge, deps, start.calls, maxAttempts))
  {
  }

  lemma ObtainedIsConsistent(judge: Judgement, runs: nat -> AuditRun, from: nat, end: nat)
    requires IsAcceptance(judge) && from <= end && ObtainedReport(judge, runs, from, end).Some?
    ensures Consistent(ObtainedReport(judge, runs, from, end).value)
  {
    var k := FirstAccepted(judge, runs, from, end).value;
    assert judge(runs(k)) == AcceptedReport(runs(k));
    AcceptedIsConsistent(runs(k).stdout.value, ObtainedReport(judge, runs, from, end).value);
  }

  /** Everything after the policy has been accepted. */
  method RunUnderPolicy(deps: AuditGateDeps, ghost judge: Judgement, exceptions: seq<Exception>, maxAttempts: nat,
                        limits: Limits)
    returns (r: GateRun)
    requires IsAcceptance(judge)
    modifies deps
    ensures Shows(r, VerdictUnder(exceptions, ReportFrom(judge, deps, old(deps.calls), maxAttempts), deps.lockText,
                                  deps.clock, limits),
                  WarningsFrom(judge, deps, exceptions, old(deps.calls), maxAttempts))
    ensures deps.calls == old(deps.calls) + AttemptsFrom(judge, deps, old(deps.calls), maxAttempts)
    ensures deps.slept == old(deps.slept) + Backoff(RetriesFrom(judge, deps, old(deps.calls), maxAttempts))
    ensures deps.lockReads
            == old(deps.lockReads) + LockReads(exceptions, ReportFrom(judge, deps, old(deps.calls), maxAttempts))
  {
    ghost var start := Effort(deps.calls, [], deps.slept);
    var obtained, warnings := ObtainReport(deps, judge, maxAttempts);
    ObtainsFrom(judge, deps, start, maxAttempts, obtained, Effort(deps.calls, warnings, deps.slept));
    if obtained.None? {
      return Returned(GateResult(VerificationUnavailable, 1, None, warnings));
    }
    ObtainedIsConsistent(judge, deps.runs, start.calls, start.calls + maxAttempts);
    r := JudgeReport(deps, obtained.value, exceptions, limits, warnings);
  }

  /** The policy file after the field-level schema, if it could be read at all. */
  function DecodeText(text: Text<Json.Value>, dates: Dates): Text<PolicyDocument> {
    match text
    case Contents(payload) => Contents(Decode(payload, dates))
    case Unreadable => Unreadable
    case NotJson => NotJson
  }

  ghost function PolicyIn(deps: AuditGateDeps): PolicyResult {
    PolicyRead(DecodeText(deps.policyText, deps.dates), deps.clock)
  }

  ghost function VerdictFrom(deps: AuditGateDeps, from: nat, maxAttempts: nat, limits: Limits): Verdict {
    GateVerdict(DecodeText(deps.policyText, deps.dates), ReportFrom(AcceptedReport, deps, from, maxAttempts),
                deps.lockText, deps.clock, limits)
  }

  method ReadPolicy(deps: AuditGateDeps) returns (r: PolicyResult)
    ensures r == PolicyIn(deps)
  {
    if !deps.policyText.Contents? {
      return Invalid;
    }
    r := ParsePolicyPayload(deps.policyText.value, deps.dates, deps.clock);
  }

  /** The run shows the gate's verdict. Under an invalid policy it touches nothing; otherwise it makes exactly the
      audits, pauses and lockfile reads, and raises exactly the warnings, that the runs call for. */
  method RunAuditGate(deps: AuditGateDeps, maxAttempts: nat, limits: Limits) returns (r: GateRun)
    modifies deps
    ensures PolicyIn(deps).Invalid? ==>
              && Shows(r, VerdictFrom(deps, old(deps.calls), maxAttempts, limits), [])
              && unchanged(deps)
    ensures PolicyIn(deps).Valid? ==>
              && Shows(r, VerdictFrom(deps, old(deps.calls), maxAttempts, limits),
                       WarningsFrom(AcceptedReport, deps, PolicyIn(deps).exceptions, old(deps.calls), maxAttempts))
              && deps.calls == old(deps.calls) + AttemptsFrom(AcceptedReport, deps, old(deps.calls), maxAttempts)
              && deps.slept
                 == old(deps.slept) + Backoff(RetriesFrom(AcceptedReport, deps, old(deps.calls), maxAttempts))
              && deps.lockReads == old(deps.lockReads)
                                   + LockReads(PolicyIn(deps).exceptions,
                                               ReportFrom(AcceptedReport, deps, old(deps.calls), maxAttempts))
  {
    var policy := ReadPolicy(deps);
    match policy {
      case Invalid => r := Returned(GateResult(InvalidPolicy, 1, None, []));
      case Valid(exceptions) => r := RunUnderPolicy(deps, AcceptedReport, exceptions, maxAttempts, limits);
    }
  }
}
