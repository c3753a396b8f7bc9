/**
  Which JSON values are policy records and documents, property by property, and which lists of records are a
  valid policy at a given time.
 */
module PolicyLaws {
  import opened Prelude
  import opened ReportRoundTrip
  import opened Policy
  import opened PolicySchema
  import opened PolicySchemaLaws
  import Json

  /** An object with no other keys than these. */
  predicate HasKeysAmong(v: Json.Value, keys: set<string>) {
    v.Object? && forall field | field in v.fields :: field.key in keys
  }

  /** The properties of the value are the texts of the record, and there are no others. */
  predicate ShowsRecord(v: Json.Value, t: RecordText) {
    var package, approval := Json.Get(v, "package"), Json.Get(v, "approval");
    && HasKeysAmong(v, {"id", "status", "advisory", "cve", "package", "scope", "path", "rationale", "exposureEvidence",
                        "owner", "approval", "expiresAt", "reviewBy", "removalConditions"})
    && HasKeysAmong(package, {"name", "version"}) && HasKeysAmong(approval, {"approvedBy", "approvedAt", "reference"})
    && Json.Get(v, "id") == Json.String(t.id) && Json.Get(v, "status") == Json.String(t.status)
    && Json.Get(v, "advisory") == Json.String(t.advisory)
    && Json.Get(v, "cve") == (if t.cve.Some? then Json.String(t.cve.value) else Json.Undefined)
    && Json.Get(package, "name") == Json.String(t.name) && Json.Get(package, "version") == Json.String(t.version)
    && Json.Get(v, "scope") == Json.String(t.scope) && Json.Get(v, "path") == StringsToJson(t.path)
    && Json.Get(v, "rationale") == Json.String(t.rationale)
    && Json.Get(v, "exposureEvidence") == Json.String(t.exposureEvidence)
    && Json.Get(v, "owner") == Json.String(t.owner)
    && Json.Get(approval, "approvedBy") == Json.String(t.approvedBy)
    && Json.Get(approval, "approvedAt") == Json.String(t.approvedAt)
    && Json.Get(approval, "reference") == Json.String(t.reference)
    && Json.Get(v, "expiresAt") == Json.String(t.expiresAt) && Json.Get(v, "reviewBy") == Json.String(t.reviewBy)
    && Json.Get(v, "removalConditions") == StringsToJson(t.removalConditions)
  }

  lemma OnlyExactly(v: Json.Value, keys: seq<string>, named: set<string>)
    requires forall k :: k in keys <==> k in named
    ensures HasOnly(v, keys) <==> HasKeysAmong(v, named)
  {
    if v.Object? && HasKeysAmong(v, named) {
      forall i | 0 <= i < |v.fields| ensures v.fields[i].key in keys {
        assert v.fields[i] in v.fields;
      }
    }
  }

  lemma SevenKeys(k: string, a: string, b: string, c: string, d: string, e: string, f: string, g: string)
    ensures k in [a, b, c, d, e, f, g] <==> k in {a, b, c, d, e, f, g}
  {
    var keys := [a, b, c, d, e, f, g];
    assert keys[0] == a && keys[1] == b && keys[2] == c && keys[3] == d && keys[4] == e && keys[5] == f && keys[6] == g;
  }

  lemma RecordKeysExactly(k: string)
    ensures k in RECORD_KEYS <==>
            k in {"id", "status", "advisory", "cve", "package", "scope", "path", "rationale", "exposureEvidence",
                  "owner", "approval", "expiresAt", "reviewBy", "removalConditions"}
  {
    var first := ["id", "status", "advisory", "cve", "package", "scope", "path"];
    var second := ["rationale", "exposureEvidence", "owner", "approval", "expiresAt", "reviewBy", "removalConditions"];
    assert RECORD_KEYS == first + second;
    SevenKeys(k, "id", "status", "advisory", "cve", "package", "scope", "path");
    SevenKeys(k, "rationale", "exposureEvidence", "owner", "approval", "expiresAt", "reviewBy", "removalConditions");
  }

  lemma InnerKeysExactly(k: string)
    ensures k in PACKAGE_KEYS <==> k in {"name", "version"}
    ensures k in APPROVAL_KEYS <==> k in {"approvedBy", "approvedAt", "reference"}
    ensures k in DOCUMENT_KEYS <==> k in {"schemaVersion", "exceptions"}
  {
    assert PACKAGE_KEYS[0] == "name" && PACKAGE_KEYS[1] == "version";
    assert APPROVAL_KEYS[0] == "approvedBy" && APPROVAL_KEYS[1] == "approvedAt" && APPROVAL_KEYS[2] == "reference";
    assert DOCUMENT_KEYS[0] == "schemaVersion" && DOCUMENT_KEYS[1] == "exceptions";
  }

  lemma KnownExactly(v: Json.Value)
    ensures ViewOf(v).known <==>
            && HasKeysAmong(v, {"id", "status", "advisory", "cve", "package", "scope", "path", "rationale",
                                "exposureEvidence", "owner", "approval", "expiresAt", "reviewBy", "removalConditions"})
            && HasKeysAmong(Json.Get(v, "package"), {"name", "version"})
            && HasKeysAmong(Json.Get(v, "approval"), {"approvedBy", "approvedAt", "reference"})
  {
    forall k
      ensures k in RECORD_KEYS <==>
              k in {"id", "status", "advisory", "cve", "package", "scope", "path", "rationale", "exposureEvidence",
                    "owner", "approval", "expiresAt", "reviewBy", "removalConditions"}
    {
      RecordKeysExactly(k);
    }
    forall k
      ensures k in PACKAGE_KEYS <==> k in {"name", "version"}
      ensures k in APPROVAL_KEYS <==> k in {"approvedBy", "approvedAt", "reference"}
    {
      InnerKeysExactly(k);
    }
    OnlyExactly(v, RECORD_KEYS, {"id", "status", "advisory", "cve", "package", "scope", "path", "rationale",
                                 "exposureEvidence", "owner", "approval", "expiresAt", "reviewBy",
                                 "removalConditions"});
    OnlyExactly(Json.Get(v, "package"), PACKAGE_KEYS, {"name", "version"});
    OnlyExactly(Json.Get(v, "approval"), APPROVAL_KEYS, {"approvedBy", "approvedAt", "reference"});
  }

  lemma ShownExactly(v: Json.Value, t: RecordText)
    ensures ShowsRecord(v, t) <==> ViewOf(v) == ViewFor(t)
  {
    KnownExactly(v);
  }

  /** The texts of an allowed view. */
  function TextsShown(view: RecordView): RecordText {
    RecordText(TextOf(view.id), TextOf(view.status), TextOf(view.advisory),
               if view.cve.String? then Some(view.cve.s) else None, TextOf(view.name), TextOf(view.version),
               TextOf(view.scope), TextsOf(view.path), TextOf(view.rationale), TextOf(view.exposureEvidence),
               TextOf(view.owner), TextOf(view.approvedBy), TextOf(view.approvedAt), TextOf(view.reference),
               TextOf(view.expiresAt), TextOf(view.reviewBy), TextsOf(view.removalConditions))
  }

  lemma TextsAreStrings(v: Json.Value, accepts: string -> bool)
    requires AreTexts(v, accepts)
    ensures StringsToJson(TextsOf(v)) == v
  {
    forall i | 0 <= i < |v.items| ensures Json.String(TextsOf(v)[i]) == v.items[i] {
      assert IsText(v.items[i], accepts);
    }
  }

  lemma AllowedIsShown(view: RecordView, dates: Dates)
    requires view.IsAllowed(dates)
    ensures view == ViewFor(TextsShown(view))
  {
    TextsAreStrings(view.path, IsPathEntry);
    TextsAreStrings(view.removalConditions, IsNonBlank);
  }

  /** A value is a policy record exactly when its properties are the texts of a well-formed record, and it then says
      what that record says. */
  lemma RecordExactly(v: Json.Value, dates: Dates)
    ensures IsRecord(v, dates) <==> exists t :: ShowsRecord(v, t) && IsWellFormed(t, dates)
    ensures forall t :: ShowsRecord(v, t) ==> RecordOf(v, dates) == ExceptionFor(t, dates)
  {
    if IsRecord(v, dates) {
      var t := TextsShown(ViewOf(v));
      AllowedIsShown(ViewOf(v), dates);
      ShownExactly(v, t);
      ViewIsAllowed(t, dates);
      assert ShowsRecord(v, t) && IsWellFormed(t, dates);
    }
    forall t | ShowsRecord(v, t)
      ensures IsWellFormed(t, dates) ==> IsRecord(v, dates)
      ensures RecordOf(v, dates) == ExceptionFor(t, dates)
    {
      ShownExactly(v, t);
      ViewIsAllowed(t, dates);
      ViewIsRead(t, dates);
    }
  }

  lemma ViewIsRead(t: RecordText, dates: Dates)
    ensures ViewFor(t).Exception(dates) == ExceptionFor(t, dates)
  {
    TextsRead(t.path, IsPathEntry);
  }

  /** A value is a policy document exactly when it has schema version 1 and a list of records, and nothing else; it
      then says what the records say, in order. */
  lemma DocumentExactly(payload: Json.Value, dates: Dates)
    ensures IsDocument(payload, dates) <==>
            && HasKeysAmong(payload, {"schemaVersion", "exceptions"})
            && Json.Get(payload, "schemaVersion") == Json.Number(1.0)
            && Json.Get(payload, "exceptions").Array?
            && forall v :: v in Json.Get(payload, "exceptions").items ==> IsRecord(v, dates)
    ensures Json.Get(payload, "exceptions").Array? ==>
              var items, records := Json.Get(payload, "exceptions").items, RecordsIn(payload, dates);
              |records| == |items| && forall i :: 0 <= i < |items| ==> records[i] == RecordOf(items[i], dates)
  {
    forall k ensures k in DOCUMENT_KEYS <==> k in {"schemaVersion", "exceptions"} {
      InnerKeysExactly(k);
    }
    OnlyExactly(payload, DOCUMENT_KEYS, {"schemaVersion", "exceptions"});
    if Json.Get(payload, "exceptions").Array? {
      EachExactly(Json.Get(payload, "exceptions").items, v => IsRecord(v, dates));
    }
  }

  lemma EachExactly(items: seq<Json.Value>, accepts: Json.Value -> bool)
    ensures (forall i | 0 <= i < |items| :: accepts(items[i])) <==> forall v :: v in items ==> accepts(v)
  {
  }

  // ---------------------------------------------------------------- valid policies

  /** The path ends with the package and repeats nothing; the approval lies in the past and lasts at most ninety days;
      the review is due by the end. */
  predicate IsInOrder(e: Exception, now: int) {
    && e.path != [] && e.path[|e.path| - 1] == e.packageName + "@" + e.packageVersion
    && (forall i, j | 0 <= i < j < |e.path| :: e.path[i] != e.path[j])
    && e.approvedAt <= now && e.approvedAt < e.expiresAt && e.expiresAt - e.approvedAt <= 7_776_000_000
    && e.reviewBy.Some? && e.reviewBy.value <= e.expiresAt
  }

  predicate HaveOwnIds(exceptions: seq<Exception>) {
    forall i, j | 0 <= i < |exceptions| && 0 <= j < |exceptions| :: exceptions[i].id == exceptions[j].id ==> i == j
  }

  /** Records are a valid policy exactly when each is in order and no two have the same id. */
  lemma ValidPolicyExactly(exceptions: seq<Exception>, now: int)
    ensures ValidPolicy(exceptions, now) <==>
            && (forall e :: e in exceptions ==> IsInOrder(e, now))
            && HaveOwnIds(exceptions)
  {
    forall e ensures Approved(e, now) <==> IsInOrder(e, now) {
      assert MAX_EXCEPTION_DAYS * DAY_MS == 7_776_000_000;
    }
    if HaveOwnIds(exceptions) {
      assert DistinctIds(exceptions);
    }
  }
}
