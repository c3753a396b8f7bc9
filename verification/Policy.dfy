/**
  The active exception list. Times are milliseconds since the epoch. A document is accepted only as
  a whole: every record must satisfy the cross-field rules, no id may repeat, and no approval may
  lie in the future.
 */
module Policy {
  import opened Prelude
  import opened Location

  const MAX_EXCEPTION_DAYS := 90
  const DAY_MS := 86_400_000

  datatype Exception = Exception(
    id: string,
    advisory: string,
    packageName: string,
    packageVersion: string,
    path: seq<string>,
    approvedAt: int,
    expiresAt: int,
    reviewBy: Option<int>)   // None: matches the date pattern but names no real day

  /** A policy file after the field-level schema: refused, or typed records. */
  datatype PolicyDocument = Malformed | Document(exceptions: seq<Exception>)

  datatype PolicyResult = Valid(exceptions: seq<Exception>) | Invalid

  predicate IsActive(e: Exception, now: int) {
    now < e.expiresAt
  }

  // ---------------------------------------------------------------- the cross-field rules

  /** The record rules, as the schema's refinement checks them. */
  predicate MeetsRecordRules(e: Exception) {
    && e.path != []
    && e.path[|e.path| - 1] == AtVersion(e.packageName, e.packageVersion)
    && |Elements(e.path)| == |e.path|
    && !(e.expiresAt <= e.approvedAt)
    && !(e.expiresAt - e.approvedAt > MAX_EXCEPTION_DAYS * DAY_MS)
    && e.reviewBy.Some? && !(e.reviewBy.value > e.expiresAt)
  }

  predicate DistinctIds(exceptions: seq<Exception>) {
    forall i, j :: 0 <= i < j < |exceptions| ==> exceptions[i].id != exceptions[j].id
  }

  /** What a valid policy promises about one exception. */
  ghost predicate Approved(e: Exception, now: int) {
    && e.path != [] && e.path[|e.path| - 1] == AtVersion(e.packageName, e.packageVersion)
    && Distinct(e.path)
    && e.approvedAt <= now
    && e.approvedAt < e.expiresAt <= e.approvedAt + MAX_EXCEPTION_DAYS * DAY_MS
    && e.reviewBy.Some? && e.reviewBy.value <= e.expiresAt
  }

  ghost predicate ValidPolicy(exceptions: seq<Exception>, now: int) {
    && DistinctIds(exceptions)
    && forall e :: e in exceptions ==> Approved(e, now)
  }

  lemma RecordRules(e: Exception, now: int)
    ensures MeetsRecordRules(e) && e.approvedAt <= now <==> Approved(e, now)
  {
    DistinctByCardinality(e.path);
  }

  /** The outcome the policy file deserves. */
  ghost function PolicyOf(document: PolicyDocument, now: int): PolicyResult {
    if document.Document? && ValidPolicy(document.exceptions, now) then Valid(document.exceptions) else Invalid
  }

  method ParsePolicy(document: PolicyDocument, now: int) returns (r: PolicyResult)
    ensures r == PolicyOf(document, now)
  {
    if document.Malformed? || exists e :: e in document.exceptions && !MeetsRecordRules(e) {
      if document.Document? {
        var e :| e in document.exceptions && !MeetsRecordRules(e);
        RecordRules(e, now);
      }
      return Invalid;
    }
    var exceptions := document.exceptions;
    var ids: set<string> := {};
    for i := 0 to |exceptions|
      invariant ids == set j | 0 <= j < i :: exceptions[j].id
      invariant forall j, k :: 0 <= j < k < i ==> exceptions[j].id != exceptions[k].id
      invariant forall j :: 0 <= j < i ==> Approved(exceptions[j], now)
    {
      RecordRules(exceptions[i], now);
      if exceptions[i].id in ids || exceptions[i].approvedAt > now {
        return Invalid;
      }
      ids := ids + {exceptions[i].id};
    }
    return Valid(exceptions);
  }

  // ---------------------------------------------------------------- selecting exceptions

  function ActiveAt(now: int): Exception -> bool {
    (e: Exception) => IsActive(e, now)
  }

  function ExpiredAt(now: int): Exception -> bool {
    (e: Exception) => !IsActive(e, now)
  }

  function About(advisory: string, name: string): Exception -> bool {
    (e: Exception) => e.advisory == advisory && e.packageName == name
  }

  function ForVersion(version: string): Exception -> bool {
    (e: Exception) => e.packageVersion == version
  }

  function NotAmong(ids: set<string>): Exception -> bool {
    (e: Exception) => e.id !in ids
  }

  function Ids(exceptions: seq<Exception>): set<string> {
    set e | e in exceptions :: e.id
  }

  lemma {:induction false} FilterKeepsDistinctIds(p: Exception -> bool, exceptions: seq<Exception>)
    requires DistinctIds(exceptions)
    ensures DistinctIds(Filter(p, exceptions))
  {
    if exceptions != [] {
      var front := exceptions[..|exceptions| - 1];
      FilterKeepsDistinctIds(p, front);
      assert forall e :: e in front ==> e.id != exceptions[|exceptions| - 1].id;
    }
  }

  lemma {:induction false} DistinctIdsCount(exceptions: seq<Exception>)
    requires DistinctIds(exceptions)
    ensures |Ids(exceptions)| == |exceptions|
  {
    if exceptions != [] {
      var front, last := exceptions[..|exceptions| - 1], exceptions[|exceptions| - 1];
      DistinctIdsCount(front);
      assert exceptions == front + [last];
      assert Ids(exceptions) == Ids(front) + {last.id};
      assert last.id !in Ids(front);
    }
  }
}
