/**
  Coverage of findings over the graph of causes. Each advisory is judged by a given judgement; a
  finding is covered when every cause is, by a derivation of finite height, so that a cycle of causes
  never covers itself.
 */
module Causes {
  import opened Prelude
  import opened AuditReport

  datatype Reason =
    | NotAnAdvisory(url: string)
    | CriticalAdvisory(advisory: string)
    | NamesAnotherPackage(advisory: string, dependency: string)
    | ExceptionLapsed(advisory: string, id: string)
    | NoActiveException(advisory: string)
    | GraphUnavailable(advisory: string)
    | NoInstalledLocation(advisory: string)
    | PathsUnknown(advisory: string, node: string)
    | OtherVersion(advisory: string, node: string, version: string)
    | PathNotCovered(advisory: string, packages: seq<string>)
    | PathNotDevelopmentOnly(advisory: string, packages: seq<string>)
    | CyclicCause(name: string)
    | NotFullyCovered(cause: string)
    | CauseMissing(cause: string)
    | CriticalFinding

  datatype CauseCoverage = CauseCoverage(covered: bool, exceptionIds: seq<string>, reasons: seq<Reason>)

  function Uncovered(reason: Reason): CauseCoverage {
    CauseCoverage(false, [], [reason])
  }

  /** Exception ids relied on and objections raised so far. */
  datatype Evidence = Evidence(ids: seq<string>, reasons: seq<Reason>) {
    function Object(reason: Reason): Evidence {
      Evidence(ids, reasons + [reason])
    }

    function Rely(id: string): Evidence {
      Evidence(Insert(ids, id), reasons)
    }

    /** No objection means covered; otherwise no id is reported. */
    function Verdict(): CauseCoverage {
      if reasons == [] then CauseCoverage(true, ids, []) else CauseCoverage(false, [], reasons)
    }
  }

  const NOTHING := Evidence([], [])

  /** The findings by name, and the verdict on each advisory of each finding. */
  datatype CauseGraph = CauseGraph(byName: map<string, Finding>, judge: (Finding, AdvisoryCause) -> CauseCoverage)

  // ---------------------------------------------------------------- derivations

  /** The ids that cover finding `name` by a derivation no higher than `height`, if one exists. */
  function Derive(c: CauseGraph, height: nat, name: string): Option<seq<string>>
    decreases height, 0, 0
  {
    if height == 0 || name !in c.byName then None
    else DeriveCauses(c, height, c.byName[name], c.byName[name].via)
  }

  function DeriveCause(c: CauseGraph, height: nat, f: Finding, cause: Cause): Option<seq<string>>
    requires height > 0
    decreases height - 1, 1, 0
  {
    match cause
    case Inherited(name) => Derive(c, height - 1, name)
    case Advisory(advisory) =>
      var coverage := c.judge(f, advisory);
      if coverage.covered then Some(coverage.exceptionIds) else None
  }

  function DeriveCauses(c: CauseGraph, height: nat, f: Finding, via: seq<Cause>): Option<seq<string>>
    requires height > 0
    decreases height - 1, 2, |via|
  {
    if via == [] then Some([])
    else
      var earlier := DeriveCauses(c, height, f, via[..|via| - 1]);
      var last := DeriveCause(c, height, f, via[|via| - 1]);
      if earlier.Some? && last.Some? then Some(InsertAll(earlier.value, last.value)) else None
  }

  /** The least fixed point: no derivation needs to be higher than the number of findings. */
  function Covering(c: CauseGraph, name: string): Option<seq<string>> {
    Derive(c, |c.byName|, name)
  }

  predicate Covered(c: CauseGraph, name: string) {
    Covering(c, name).Some?
  }

  // ---------------------------------------------------------------- verdicts with reasons

  function CauseVerdict(c: CauseGraph, f: Finding, cause: Cause): CauseCoverage {
    match cause
    case Advisory(advisory) => c.judge(f, advisory)
    case Inherited(name) =>
      if name !in c.byName then Uncovered(CauseMissing(name))
      else match Covering(c, name)
        case Some(ids) => CauseCoverage(true, ids, [])
        case None => Uncovered(NotFullyCovered(name))
  }

  function WeighCauses(c: CauseGraph, f: Finding, via: seq<Cause>): Evidence {
    if via == [] then NOTHING
    else
      var earlier := WeighCauses(c, f, via[..|via| - 1]);
      var last := CauseVerdict(c, f, via[|via| - 1]);
      Evidence(InsertAll(earlier.ids, last.exceptionIds), earlier.reasons + last.reasons)
  }

  function FindingCoverage(c: CauseGraph, f: Finding): CauseCoverage {
    WeighCauses(c, f, f.via).Verdict()
  }
}
