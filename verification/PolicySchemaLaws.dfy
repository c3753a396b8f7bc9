/**
  What the policy schema promises: which file each part of an exception comes from, which files are
  refused whole, and that every decoded path consists of path entries.
 */
module PolicySchemaLaws {
  import opened Prelude
  import opened AuditReport
  import opened Policy
  import opened PathEntries
  import opened PolicySchema
  import opened ReportRoundTrip
  import Json

  /** The texts of one policy record. */
  datatype RecordText = RecordText(
    id: string, status: string, advisory: string, cve: Option<string>, name: string, version: string, scope: string,
    path: seq<string>, rationale: string, exposureEvidence: string, owner: string, approvedBy: string,
    approvedAt: string, reference: string, expiresAt: string, reviewBy: string, removalConditions: seq<string>)

  function Text(key: string, s: string): Json.Field<Json.Value> {
    Json.Field(key, Json.String(s))
  }

  function PackageFields(t: RecordText): Json.Fields<Json.Value> {
    [Text("name", t.name), Text("version", t.version)]
  }

  function ApprovalFields(t: RecordText): Json.Fields<Json.Value> {
    [Text("approvedBy", t.approvedBy), Text("approvedAt", t.approvedAt), Text("reference", t.reference)]
  }

  function RequiredFields(t: RecordText): Json.Fields<Json.Value> {
    [Text("id", t.id), Text("status", t.status), Text("advisory", t.advisory),
     Json.Field("package", Json.Object(PackageFields(t))), Text("scope", t.scope),
     Json.Field("path", StringsToJson(t.path)), Text("rationale", t.rationale),
     Text("exposureEvidence", t.exposureEvidence), Text("owner", t.owner),
     Json.Field("approval", Json.Object(ApprovalFields(t))), Text("expiresAt", t.expiresAt),
     Text("reviewBy", t.reviewBy),
     Json.Field("removalConditions", StringsToJson(t.removalConditions))]
  }

  function RecordFields(t: RecordText): Json.Fields<Json.Value> {
    if t.cve.None? then RequiredFields(t) else RequiredFields(t) + [Text("cve", t.cve.value)]
  }

  /** Every text has the form the schema asks for. */
  predicate IsWellFormed(t: RecordText, dates: Dates) {
    && IsExceptionId(t.id) && t.status == "approved" && IsAdvisoryId(t.advisory)
    && (t.cve.Some? ==> IsCve(t.cve.value))
    && IsPackageName(t.name) && IsExactVersion(t.version) && t.scope == "development"
    && t.path != [] && (forall s | s in t.path :: IsPathEntry(s))
    && IsProse(t.rationale) && IsProse(t.exposureEvidence) && IsNonBlank(t.owner)
    && IsNonBlank(t.approvedBy) && IsTimestamp(t.approvedAt) && dates(t.approvedAt).Some? && IsReference(t.reference)
    && IsTimestamp(t.expiresAt) && dates(t.expiresAt).Some? && IsDay(t.reviewBy)
    && t.removalConditions != [] && (forall s | s in t.removalConditions :: IsNonBlank(s))
  }

  lemma PackageIsRead(t: RecordText)
    ensures var v := Json.Object(PackageFields(t));
            && Json.Get(v, "name") == Json.String(t.name) && Json.Get(v, "version") == Json.String(t.version)
            && HasOnly(v, PACKAGE_KEYS)
  {
    var fields := PackageFields(t);
    Json.FieldIsRead(fields, 0, "name", Json.String(t.name));
    Json.FieldIsRead(fields, 1, "version", Json.String(t.version));
    assert PACKAGE_KEYS[0] == "name" && PACKAGE_KEYS[1] == "version";
  }

  lemma ApprovalIsRead(t: RecordText)
    ensures var v := Json.Object(ApprovalFields(t));
            && Json.Get(v, "approvedBy") == Json.String(t.approvedBy)
               && Json.Get(v, "approvedAt") == Json.String(t.approvedAt)
            && Json.Get(v, "reference") == Json.String(t.reference) && HasOnly(v, APPROVAL_KEYS)
  {
    var fields := ApprovalFields(t);
    Json.FieldIsRead(fields, 0, "approvedBy", Json.String(t.approvedBy));
    Json.FieldIsRead(fields, 1, "approvedAt", Json.String(t.approvedAt));
    Json.FieldIsRead(fields, 2, "reference", Json.String(t.reference));
    assert APPROVAL_KEYS[0] == "approvedBy" && APPROVAL_KEYS[1] == "approvedAt" && APPROVAL_KEYS[2] == "reference";
  }

  lemma FirstFieldsRead(t: RecordText)
    ensures var v := Json.Object(RecordFields(t));
            && Json.Get(v, "id") == Json.String(t.id) && Json.Get(v, "status") == Json.String(t.status)
            && Json.Get(v, "advisory") == Json.String(t.advisory)
  {
    var fields := RecordFields(t);
    Json.FieldIsRead(fields, 0, "id", Json.String(t.id));
    Json.FieldIsRead(fields, 1, "status", Json.String(t.status));
    Json.FieldIsRead(fields, 2, "advisory", Json.String(t.advisory));
  }

  lemma ScopeIsRead(t: RecordText)
    ensures Json.Get(Json.Object(RecordFields(t)), "package") == Json.Object(PackageFields(t))
    ensures Json.Get(Json.Object(RecordFields(t)), "scope") == Json.String(t.scope)
  {
    var fields := RecordFields(t);
    Json.FieldIsRead(fields, 3, "package", Json.Object(PackageFields(t)));
    Json.FieldIsRead(fields, 4, "scope", Json.String(t.scope));
  }

  lemma MiddleFieldsRead(t: RecordText)
    ensures var v := Json.Object(RecordFields(t));
            && Json.Get(v, "path") == StringsToJson(t.path) && Json.Get(v, "rationale") == Json.String(t.rationale)
            && Json.Get(v, "exposureEvidence") == Json.String(t.exposureEvidence)
  {
    var fields := RecordFields(t);
    Json.FieldIsRead(fields, 5, "path", StringsToJson(t.path));
    Json.FieldIsRead(fields, 6, "rationale", Json.String(t.rationale));
    Json.FieldIsRead(fields, 7, "exposureEvidence", Json.String(t.exposureEvidence));
  }

  lemma ApprovalFieldsRead(t: RecordText)
    ensures Json.Get(Json.Object(RecordFields(t)), "owner") == Json.String(t.owner)
    ensures Json.Get(Json.Object(RecordFields(t)), "approval") == Json.Object(ApprovalFields(t))
  {
    var fields := RecordFields(t);
    Json.FieldIsRead(fields, 8, "owner", Json.String(t.owner));
    Json.FieldIsRead(fields, 9, "approval", Json.Object(ApprovalFields(t)));
  }

  lemma LastFieldsRead(t: RecordText)
    ensures var v := Json.Object(RecordFields(t));
            && Json.Get(v, "expiresAt") == Json.String(t.expiresAt)
               && Json.Get(v, "reviewBy") == Json.String(t.reviewBy)
            && Json.Get(v, "removalConditions") == StringsToJson(t.removalConditions)
  {
    var fields := RecordFields(t);
    Json.FieldIsRead(fields, 10, "expiresAt", Json.String(t.expiresAt));
    Json.FieldIsRead(fields, 11, "reviewBy", Json.String(t.reviewBy));
    Json.FieldIsRead(fields, 12, "removalConditions", StringsToJson(t.removalConditions));
  }

  lemma CveIsRead(t: RecordText)
    ensures Json.Get(Json.Object(RecordFields(t)), "cve") == CveValue(t)
  {
    var fields := RecordFields(t);
    if t.cve.Some? {
      Json.FieldIsRead(fields, 13, "cve", Json.String(t.cve.value));
    } else {
      Json.LookupMisses(fields, "cve");
    }
  }

  function CveValue(t: RecordText): Json.Value {
    if t.cve.Some? then Json.String(t.cve.value) else Json.Undefined
  }

  lemma RecordHasOnlyItsKeys(t: RecordText)
    ensures HasOnly(Json.Object(RecordFields(t)), RECORD_KEYS)
  {
    var fields := RequiredFields(t);
    forall i | 0 <= i < |fields| ensures fields[i].key in RECORD_KEYS {
      assert RECORD_KEYS[if i < 3 then i else i + 1] == fields[i].key;
    }
    assert RECORD_KEYS[3] == "cve";
  }

  lemma TextsRead(s: seq<string>, accepts: string -> bool)
    ensures AreTexts(StringsToJson(s), accepts) <==> s != [] && forall x :: x in s ==> accepts(x)
    ensures TextsOf(StringsToJson(s)) == s
  {
    var v := StringsToJson(s);
    assert forall i :: 0 <= i < |s| ==> v.items[i] == Json.String(s[i]);
    if AreTexts(v, accepts) {
      forall x | x in s ensures accepts(x) {
        var i :| 0 <= i < |s| && s[i] == x;
        assert IsText(v.items[i], accepts);
      }
    }
  }

  function ViewFor(t: RecordText): RecordView {
    RecordView(true, Json.String(t.id), Json.String(t.status), Json.String(t.advisory), CveValue(t),
               Json.String(t.name), Json.String(t.version), Json.String(t.scope), StringsToJson(t.path),
               Json.String(t.rationale), Json.String(t.exposureEvidence), Json.String(t.owner),
               Json.String(t.approvedBy), Json.String(t.approvedAt), Json.String(t.reference),
               Json.String(t.expiresAt), Json.String(t.reviewBy), StringsToJson(t.removalConditions))
  }

  /** Every value of a written record is found under its own key. */
  lemma RecordIsViewed(t: RecordText)
    ensures ViewOf(Json.Object(RecordFields(t))) == ViewFor(t)
  {
    PackageIsRead(t);
    ApprovalIsRead(t);
    FirstFieldsRead(t);
    ScopeIsRead(t);
    MiddleFieldsRead(t);
    ApprovalFieldsRead(t);
    LastFieldsRead(t);
    CveIsRead(t);
    RecordHasOnlyItsKeys(t);
  }

  lemma ViewIsAllowed(t: RecordText, dates: Dates)
    ensures ViewFor(t).IsAllowed(dates) <==> IsWellFormed(t, dates)
  {
    TextsRead(t.path, IsPathEntry);
    TextsRead(t.removalConditions, IsNonBlank);
  }

  function ExceptionFor(t: RecordText, dates: Dates): Exception {
    Exception(t.id, t.advisory, t.name, t.version, t.path, dates(t.approvedAt).GetOr(0), dates(t.expiresAt).GetOr(0),
              dates(t.reviewBy + "T00:00:00Z"))
  }

  /** A written record has the schema's form exactly when its texts do, and each part of the exception comes
      from its own text. */
  lemma RecordIsReadBack(t: RecordText, dates: Dates)
    ensures IsRecord(Json.Object(RecordFields(t)), dates) <==> IsWellFormed(t, dates)
    ensures RecordOf(Json.Object(RecordFields(t)), dates) == ExceptionFor(t, dates)
  {
    RecordIsViewed(t);
    ViewIsAllowed(t, dates);
    TextsRead(t.path, IsPathEntry);
  }

  // ---------------------------------------------------------------- whole documents

  function DocumentFields(records: seq<RecordText>): Json.Fields<Json.Value> {
    [Json.Field("schemaVersion", Json.Number(1.0)),
     Json.Field("exceptions", Json.Array(RecordsToJson(records)))]
  }

  function RecordsToJson(records: seq<RecordText>): seq<Json.Value> {
    seq(|records|, i requires 0 <= i < |records| => Json.Object(RecordFields(records[i])))
  }

  function ExceptionsFor(records: seq<RecordText>, dates: Dates): seq<Exception> {
    seq(|records|, i requires 0 <= i < |records| => ExceptionFor(records[i], dates))
  }

  lemma RecordsAreReadBack(records: seq<RecordText>, dates: Dates)
    ensures AreRecords(RecordsToJson(records), dates) <==> forall t :: t in records ==> IsWellFormed(t, dates)
    ensures RecordsOf(RecordsToJson(records), dates) == ExceptionsFor(records, dates)
  {
    var items := RecordsToJson(records);
    forall i | 0 <= i < |records|
      ensures IsRecord(items[i], dates) <==> IsWellFormed(records[i], dates)
      ensures RecordOf(items[i], dates) == ExceptionFor(records[i], dates)
    {
      RecordIsReadBack(records[i], dates);
    }
    if AreRecords(items, dates) {
      forall t | t in records ensures IsWellFormed(t, dates) {
        var i :| 0 <= i < |records| && records[i] == t;
        assert IsRecord(items[i], dates);
      }
    }
  }

  /** A written document is read back record by record when every record is well-formed, and refused whole
      otherwise. */
  lemma DocumentIsReadBack(records: seq<RecordText>, dates: Dates)
    ensures Decode(Json.Object(DocumentFields(records)), dates)
            == if forall t :: t in records ==> IsWellFormed(t, dates) then Document(ExceptionsFor(records, dates))
              else Malformed
  {
    var fields := DocumentFields(records);
    Json.FieldIsRead(fields, 0, "schemaVersion", Json.Number(1.0));
    Json.FieldIsRead(fields, 1, "exceptions", Json.Array(RecordsToJson(records)));
    assert DOCUMENT_KEYS[0] == "schemaVersion" && DOCUMENT_KEYS[1] == "exceptions";
    RecordsAreReadBack(records, dates);
  }

  predicate IsApprovedAfter(record: Json.Value, dates: Dates, now: int) {
    var approvedAt := Json.Get(Json.Get(record, "approval"), "approvedAt");
    approvedAt.String? && dates(approvedAt.s).GetOr(0) > now
  }

  /** The record is only proposed, lacks its approval, was approved after `now`, or it, its package or its
      approval holds an unknown field. */
  predicate IsUnapproved(record: Json.Value, dates: Dates, now: int) {
    || Json.Get(record, "status") != Json.String("approved")
    || !Json.Get(record, "approval").Object?
    || IsApprovedAfter(record, dates, now)
    || !HasOnly(record, RECORD_KEYS)
    || !HasOnly(Json.Get(record, "package"), PACKAGE_KEYS)
    || !HasOnly(Json.Get(record, "approval"), APPROVAL_KEYS)
  }

  lemma ApprovedLaterIsNotApproved(record: Json.Value, dates: Dates, now: int)
    requires IsApprovedAfter(record, dates, now)
    ensures !Approved(RecordOf(record, dates), now)
  {
    assert ViewOf(record).approvedAt == Json.Get(Json.Get(record, "approval"), "approvedAt");
  }

  lemma UnapprovedIsRefused(record: Json.Value, dates: Dates, now: int)
    requires IsUnapproved(record, dates, now)
    ensures !IsRecord(record, dates) || !Approved(RecordOf(record, dates), now)
  {
    if IsApprovedAfter(record, dates, now) {
      ApprovedLaterIsNotApproved(record, dates, now);
    }
  }

  /** A list is refused when one item is not accepted or not approved. */
  lemma OneItemSpoils(items: seq<Json.Value>, accepts: Json.Value -> bool, exceptions: seq<Exception>, i: nat, now: int)
    requires i < |items| == |exceptions| && (!accepts(items[i]) || !Approved(exceptions[i], now))
    ensures !((forall j :: 0 <= j < |items| ==> accepts(items[j])) && ValidPolicy(exceptions, now))
  {
    assert exceptions[i] in exceptions;
  }

  lemma UnapprovedRecordSpoils(items: seq<Json.Value>, dates: Dates, now: int, i: nat)
    requires i < |items| && IsUnapproved(items[i], dates, now)
    ensures !AreRecords(items, dates) || !ValidPolicy(RecordsOf(items, dates), now)
  {
    UnapprovedIsRefused(items[i], dates, now);
    assert RecordsOf(items, dates)[i] == RecordOf(items[i], dates);
    OneItemSpoils(items, v => IsRecord(v, dates), RecordsOf(items, dates), i, now);
  }

  /** One unapproved record, or one unknown field of the document itself, invalidates the whole policy. */
  lemma OneFaultInvalidates(payload: Json.Value, dates: Dates, now: int)
    requires
      || !HasOnly(payload, DOCUMENT_KEYS)
      || !Json.Get(payload, "exceptions").Array?
      || exists i :: 0 <= i < |Json.Get(payload, "exceptions").items|
                     && IsUnapproved(Json.Get(payload, "exceptions").items[i], dates, now)
    ensures PolicyOf(Decode(payload, dates), now) == Invalid
  {
    if IsDocument(payload, dates) {
      var items := Json.Get(payload, "exceptions").items;
      var i :| 0 <= i < |items| && IsUnapproved(items[i], dates, now);
      UnapprovedRecordSpoils(items, dates, now, i);
    }
  }

  // ---------------------------------------------------------------- decoded paths

  /** Every path entry of every exception of a decoded policy has the form the schema asks for. */
  lemma DecodedPathsAreEntries(payload: Json.Value, dates: Dates)
    requires Decode(payload, dates).Document?
    ensures ApprovesPackages(Decode(payload, dates).exceptions)
  {
    RecordsHavePathEntries(Json.Get(payload, "exceptions").items, dates);
  }

  lemma RecordsHavePathEntries(items: seq<Json.Value>, dates: Dates)
    requires AreRecords(items, dates)
    ensures ApprovesPackages(RecordsOf(items, dates))
  {
    var exceptions := RecordsOf(items, dates);
    forall i | 0 <= i < |items| ensures HasPathEntries(exceptions[i]) {
      RecordHasPathEntries(items[i], dates);
    }
  }

  lemma RecordHasPathEntries(v: Json.Value, dates: Dates)
    requires IsRecord(v, dates)
    ensures HasPathEntries(RecordOf(v, dates))
  {
    forall text | text in RecordOf(v, dates).path ensures IsPathEntry(text) {
      EntriesAreTexts(ViewOf(v).path, IsPathEntry, text);
    }
  }

  lemma EntriesAreTexts(v: Json.Value, accepts: string -> bool, text: string)
    requires AreTexts(v, accepts) && text in TextsOf(v)
    ensures accepts(text)
  {
    var i :| 0 <= i < |TextsOf(v)| && TextsOf(v)[i] == text;
    assert IsText(v.items[i], accepts);
  }
}
