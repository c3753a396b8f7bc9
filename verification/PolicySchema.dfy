/**
  The field-level schema of the exception policy, over JSON values: which records are typed at all. A
  proposed record, a missing approval or any unknown field makes the whole document malformed. Dates are
  read by a given function, which fails where `Date.parse` gives NaN.
 */
module PolicySchema {
  import opened Prelude
  import opened AuditReport
  import opened Policy
  import Json

  type Dates = string -> Option<int>

  // ---------------------------------------------------------------- patterns

  predicate IsDigit(c: char) {
    '0' <= c <= '9'
  }

  predicate Digits(s: string) {
    s != "" && forall i | 0 <= i < |s| :: IsDigit(s[i])
  }

  /** Text of a fixed shape, in which '#' stands for a digit. */
  predicate HasShape(s: string, shape: string) {
    |s| == |shape| && forall i | 0 <= i < |s| :: if shape[i] == '#' then IsDigit(s[i]) else s[i] == shape[i]
  }

  predicate IsExceptionId(s: string) {
    HasShape(s, "npm-audit-####-###")
  }

  predicate IsTimestamp(s: string) {
    HasShape(s, "####-##-##T##:##:##Z")
  }

  predicate IsDay(s: string) {
    HasShape(s, "####-##-##")
  }

  predicate IsCve(s: string) {
    |s| >= 13 && HasShape(s[..9], "CVE-####-") && Digits(s[9..])
  }

  /** A package name without its scope. */
  predicate IsBareName(s: string) {
    s != "" && IsIdentifierChar(s[0]) && forall i | 0 < i < |s| :: IsIdentifierChar(s[i]) || s[i] in {'.', '_', '-'}
  }

  predicate IsPackageName(s: string) {
    || IsBareName(s)
    || exists i | 1 < i < |s| :: s[0] == '@' && s[i] == '/' && IsBareName(s[1..i]) && IsBareName(s[i + 1..])
  }

  predicate IsTagChar(c: char) {
    IsDigit(c) || 'A' <= c <= 'Z' || 'a' <= c <= 'z' || c == '.' || c == '-'
  }

  /** Nothing, or `mark` followed by a pre-release or build tag. */
  predicate IsTag(s: string, mark: char) {
    s == "" || (|s| > 1 && s[0] == mark && forall i | 0 < i < |s| :: IsTagChar(s[i]))
  }

  /** major.minor.patch, then a pre-release tag, then a build tag. */
  predicate SplitsVersion(s: string, i: nat, j: nat, k: nat, l: nat)
    requires i < j < k <= l <= |s|
  {
    && s[i] == '.' && s[j] == '.'
    && Digits(s[..i]) && Digits(s[i + 1..j]) && Digits(s[j + 1..k])
    && IsTag(s[k..l], '-') && IsTag(s[l..], '+')
  }

  predicate IsExactVersion(s: string) {
    exists i: nat, j: nat, k: nat, l: nat | i < j < k <= l <= |s| :: SplitsVersion(s, i, j, k, l)
  }

  predicate IsPathEntry(s: string) {
    exists i | 0 < i < |s| :: s[i] == '@' && IsPackageName(s[..i]) && IsExactVersion(s[i + 1..])
  }

  predicate IsSpace(c: char) {
    || '\t' <= c <= '\r'
       || c in {' ', '\U{00A0}', '\U{1680}', '\U{2028}', '\U{2029}', '\U{202F}', '\U{205F}', '\U{3000}', '\U{FEFF}'}
    || '\U{2000}' <= c <= '\U{200A}'
  }

  /** `String.prototype.trim`. */
  function Trim(s: string): string {
    if s == "" then ""
    else if IsSpace(s[0]) then Trim(s[1..])
    else if IsSpace(s[|s| - 1]) then Trim(s[..|s| - 1])
    else s
  }

  predicate IsNonBlank(s: string) {
    |Trim(s)| >= 1
  }

  predicate IsProse(s: string) {
    |Trim(s)| >= 20
  }

  predicate IsReference(s: string) {
    |s| > 8 && s[..8] == "https://" && forall i | 8 <= i < |s| :: !IsSpace(s[i])
  }

  // ---------------------------------------------------------------- records

  predicate HasOnly(v: Json.Value, keys: seq<string>) {
    v.Object? && forall i | 0 <= i < |v.fields| :: v.fields[i].key in keys
  }

  predicate IsText(v: Json.Value, accepts: string -> bool) {
    v.String? && accepts(v.s)
  }

  predicate AreTexts(v: Json.Value, accepts: string -> bool) {
    v.Array? && v.items != [] && forall i | 0 <= i < |v.items| :: IsText(v.items[i], accepts)
  }

  const RECORD_KEYS := ["id", "status", "advisory", "cve", "package", "scope", "path", "rationale", "exposureEvidence",
                        "owner", "approval", "expiresAt", "reviewBy", "removalConditions"]

  predicate IsDate(v: Json.Value, dates: Dates) {
    IsText(v, IsTimestamp) && dates(v.s).Some?
  }

  /** The values found under the keys of a record, its package and its approval. */
  datatype RecordView = RecordView(
    known: bool, id: Json.Value, status: Json.Value, advisory: Json.Value, cve: Json.Value, name: Json.Value,
    version: Json.Value, scope: Json.Value, path: Json.Value, rationale: Json.Value, exposureEvidence: Json.Value,
    owner: Json.Value, approvedBy: Json.Value, approvedAt: Json.Value, reference: Json.Value, expiresAt: Json.Value,
    reviewBy: Json.Value, removalConditions: Json.Value)
  {
    predicate IsAllowed(dates: Dates) {
      && known
      && IsText(id, IsExceptionId) && status == Json.String("approved") && IsText(advisory, IsAdvisoryId)
      && (cve.Undefined? || IsText(cve, IsCve))
      && IsText(name, IsPackageName) && IsText(version, IsExactVersion)
      && scope == Json.String("development") && AreTexts(path, IsPathEntry)
      && IsText(rationale, IsProse) && IsText(exposureEvidence, IsProse) && IsText(owner, IsNonBlank)
      && IsText(approvedBy, IsNonBlank) && IsDate(approvedAt, dates) && IsText(reference, IsReference)
      && IsDate(expiresAt, dates) && IsText(reviewBy, IsDay) && AreTexts(removalConditions, IsNonBlank)
    }

    function Exception(dates: Dates): Exception {
      Policy.Exception(
        TextOf(id), TextOf(advisory), TextOf(name), TextOf(version), TextsOf(path), InstantOf(approvedAt, dates),
        InstantOf(expiresAt, dates), dates(TextOf(reviewBy) + "T00:00:00Z"))
    }
  }

  function TextOf(v: Json.Value): string {
    if v.String? then v.s else ""
  }

  function TextsOf(v: Json.Value): seq<string> {
    if v.Array? then seq(|v.items|, i requires 0 <= i < |v.items| => TextOf(v.items[i])) else []
  }

  function InstantOf(v: Json.Value, dates: Dates): int {
    dates(TextOf(v)).GetOr(0)
  }

  const PACKAGE_KEYS := ["name", "version"]
  const APPROVAL_KEYS := ["approvedBy", "approvedAt", "reference"]

  function ViewOf(v: Json.Value): RecordView {
    var package, approval := Json.Get(v, "package"), Json.Get(v, "approval");
    RecordView(
      HasOnly(v, RECORD_KEYS) && HasOnly(package, PACKAGE_KEYS) && HasOnly(approval, APPROVAL_KEYS),
      Json.Get(v, "id"), Json.Get(v, "status"), Json.Get(v, "advisory"), Json.Get(v, "cve"),
      Json.Get(package, "name"), Json.Get(package, "version"), Json.Get(v, "scope"), Json.Get(v, "path"),
      Json.Get(v, "rationale"), Json.Get(v, "exposureEvidence"), Json.Get(v, "owner"),
      Json.Get(approval, "approvedBy"), Json.Get(approval, "approvedAt"), Json.Get(approval, "reference"),
      Json.Get(v, "expiresAt"), Json.Get(v, "reviewBy"), Json.Get(v, "removalConditions"))
  }

  predicate IsRecord(v: Json.Value, dates: Dates) {
    ViewOf(v).IsAllowed(dates)
  }

  /** What a well-formed record says. */
  function RecordOf(v: Json.Value, dates: Dates): Exception {
    ViewOf(v).Exception(dates)
  }

  predicate AreRecords(items: seq<Json.Value>, dates: Dates) {
    forall i | 0 <= i < |items| :: IsRecord(items[i], dates)
  }

  function RecordsOf(items: seq<Json.Value>, dates: Dates): seq<Exception> {
    seq(|items|, i requires 0 <= i < |items| => RecordOf(items[i], dates))
  }

  const DOCUMENT_KEYS := ["schemaVersion", "exceptions"]

  predicate IsDocument(payload: Json.Value, dates: Dates) {
    && HasOnly(payload, DOCUMENT_KEYS)
    && Json.Get(payload, "schemaVersion") == Json.Number(1.0)
    && Json.Get(payload, "exceptions").Array? && AreRecords(Json.Get(payload, "exceptions").items, dates)
  }

  /** What the listed records say, if there is a list. */
  function RecordsIn(payload: Json.Value, dates: Dates): seq<Exception> {
    var records := Json.Get(payload, "exceptions");
    if records.Array? then RecordsOf(records.items, dates) else []
  }

  /** The policy file after the field-level schema. */
  function Decode(payload: Json.Value, dates: Dates): PolicyDocument {
    if IsDocument(payload, dates) then Document(RecordsIn(payload, dates)) else Malformed
  }

  method ParsePolicyPayload(payload: Json.Value, dates: Dates, now: int) returns (r: PolicyResult)
    ensures r == PolicyOf(Decode(payload, dates), now)
    ensures r.Valid? <==> IsDocument(payload, dates) && ValidPolicy(RecordsIn(payload, dates), now)
    ensures r.Valid? ==> r.exceptions == RecordsIn(payload, dates)
  {
    r := ParsePolicy(Decode(payload, dates), now);
  }
}
