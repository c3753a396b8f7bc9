/**
  Every consistent report can be written as a payload that the parser reads back unchanged. Together
  with uniqueness of the accepted report this fixes which field each part of a report comes from.
 */
module ReportRoundTrip {
  import opened Prelude
  import opened AuditReport
  import Json

  function StringsToJson(s: seq<string>): Json.Value {
    Json.Array(seq(|s|, i requires 0 <= i < |s| => Json.String(s[i])))
  }

  function AdvisoryFields(a: AdvisoryCause): Json.Fields<Json.Value> {
    [Json.Field("source", a.source), Json.Field("dependency", Json.String(a.dependency)),
     Json.Field("title", Json.String(a.title)), Json.Field("url", Json.String(a.url)),
     Json.Field("severity", Json.String(SeverityName(a.severity))), Json.Field("range", Json.String(a.range))]
  }

  function CauseToJson(c: Cause): Json.Value {
    match c
    case Inherited(name) => Json.String(name)
    case Advisory(a) => Json.Object(AdvisoryFields(a))
  }

  /** A cause the parser can produce. */
  predicate Representable(c: Cause) {
    match c
    case Inherited(name) => name != ""
    case Advisory(a) => a.source.Number? || a.source.NonFinite? || a.source.String? || a.source.Null?
  }

  /** The properties of `v` are those of `a`. */
  predicate WritesAdvisory(v: Json.Value, a: AdvisoryCause) {
    && v.Object?
    && Json.Get(v, "source") == a.source
    && Json.Get(v, "dependency") == Json.String(a.dependency)
    && Json.Get(v, "title") == Json.String(a.title)
    && Json.Get(v, "url") == Json.String(a.url)
    && Json.Get(v, "severity") == Json.String(SeverityName(a.severity))
    && Json.Get(v, "range") == Json.String(a.range)
  }

  lemma AdvisoryIsRead(a: AdvisoryCause)
    ensures WritesAdvisory(Json.Object(AdvisoryFields(a)), a)
  {
    var fields := AdvisoryFields(a);
    Json.FieldIsRead(fields, 0, "source", a.source);
    Json.FieldIsRead(fields, 1, "dependency", Json.String(a.dependency));
    Json.FieldIsRead(fields, 2, "title", Json.String(a.title));
    Json.FieldIsRead(fields, 3, "url", Json.String(a.url));
    Json.FieldIsRead(fields, 4, "severity", Json.String(SeverityName(a.severity)));
    Json.FieldIsRead(fields, 5, "range", Json.String(a.range));
  }

  lemma SeverityIsRead(s: Severity)
    ensures AsSeverity(Json.String(SeverityName(s))) == Some(s)
  {
  }

  lemma AdvisoryIsParsed(v: Json.Value, a: AdvisoryCause)
    requires WritesAdvisory(v, a)
    ensures ParseCause(v) == Some(Advisory(a)) <==> Representable(Advisory(a))
  {
    SeverityIsRead(a.severity);
    assert OrElse(Json.Get(v, "dependency"), Json.Get(v, "name")) == Json.String(a.dependency);
  }

  lemma CauseRoundTrip(c: Cause)
    ensures ParseCause(CauseToJson(c)) == Some(c) <==> Representable(c)
  {
    if c.Advisory? {
      AdvisoryIsRead(c.advisory);
      AdvisoryIsParsed(Json.Object(AdvisoryFields(c.advisory)), c.advisory);
    }
  }

  function CausesToJson(via: seq<Cause>): Json.Value {
    Json.Array(seq(|via|, i requires 0 <= i < |via| => CauseToJson(via[i])))
  }

  function FindingEntries(f: Finding): Json.Fields<Json.Value> {
    [Json.Field("name", Json.String(f.name)), Json.Field("severity", Json.String(SeverityName(f.severity))),
     Json.Field("isDirect", Json.Bool(f.isDirect)), Json.Field("via", CausesToJson(f.via)),
     Json.Field("effects", StringsToJson(f.effects)), Json.Field("range", Json.String(f.range)),
     Json.Field("nodes", StringsToJson(f.nodes))]
  }

  predicate RepresentableFinding(f: Finding) {
    f.via != [] && forall c | c in f.via :: Representable(c)
  }

  lemma FindingRoundTrip(f: Finding)
    requires RepresentableFinding(f)
    ensures Describes(f.name, Json.Object(FindingEntries(f)), f)
  {
    var fields := FindingEntries(f);
    Json.ObjectHolds(fields);
    var v := Json.Object(fields);
    assert Json.Get(v, "name") == fields[0].value;
    assert Json.Get(v, "severity") == fields[1].value;
    assert Json.Get(v, "isDirect") == fields[2].value;
    assert Json.Get(v, "via") == fields[3].value;
    assert Json.Get(v, "effects") == fields[4].value;
    assert Json.Get(v, "range") == fields[5].value;
    assert Json.Get(v, "nodes") == fields[6].value;
    forall i | 0 <= i < |f.via| ensures ParseCause(CausesToJson(f.via).items[i]) == Some(f.via[i]) {
      CauseRoundTrip(f.via[i]);
    }
    assert Strings(StringsToJson(f.effects)) == f.effects;
    assert Strings(StringsToJson(f.nodes)) == f.nodes;
  }

  function ListingToJson(findings: seq<Finding>): Json.Fields<Json.Value>
    requires DistinctNames(findings)
  {
    seq(|findings|,
        i requires 0 <= i < |findings| => Json.Field(findings[i].name, Json.Object(FindingEntries(findings[i]))))
  }

  function CountsToJson(counts: Tally, total: nat): Json.Fields<Json.Value> {
    [Json.Field("info", Json.Number(counts.info as real)), Json.Field("low", Json.Number(counts.low as real)),
     Json.Field("moderate", Json.Number(counts.moderate as real)), Json.Field("high", Json.Number(counts.high as real)),
     Json.Field("critical", Json.Number(counts.critical as real)), Json.Field("total", Json.Number(total as real))]
  }

  lemma CountsRoundTrip(counts: Tally, total: nat)
    ensures DeclaresCounts(Json.Object(CountsToJson(counts, total)), counts, total)
  {
    var fields := CountsToJson(counts, total);
    Json.ObjectHolds(fields);
    forall s ensures Json.Get(Json.Object(fields), SeverityName(s)) == Json.Number(counts.At(s) as real) {
      var i := match s case Info => 0 case Low => 1 case Moderate => 2 case High => 3 case Critical => 4;
      assert fields[i].key == SeverityName(s);
    }
    assert fields[5].key == "total";
  }

  function ReportFields(r: Report): Json.Fields<Json.Value>
    requires DistinctNames(r.findings)
  {
    [Json.Field("auditReportVersion", Json.Number(2.0)),
     Json.Field("vulnerabilities", Json.Object(ListingToJson(r.findings))),
     Json.Field("metadata", Json.Object([Json.Field("vulnerabilities", Json.Object(CountsToJson(r.counts, r.total)))]))]
  }

  lemma ReportShape(r: Report)
    requires DistinctNames(r.findings)
    ensures var payload := Json.Object(ReportFields(r));
            && HasReportShape(payload)
            && VulnerabilitiesOf(payload) == Json.Object(ListingToJson(r.findings))
            && MetadataOf(payload) == Json.Object(CountsToJson(r.counts, r.total))
  {
    var fields := ReportFields(r);
    Json.ObjectHolds(fields);
    assert fields[0].key == "auditReportVersion" && fields[1].key == "vulnerabilities" && fields[2].key == "metadata";
    Json.ObjectHolds(fields[2].value.fields);
    assert fields[2].value.fields[0].key == "vulnerabilities";
  }

  lemma ListingRoundTrip(findings: seq<Finding>)
    requires DistinctNames(findings) && forall f :: f in findings ==> RepresentableFinding(f)
    ensures Lists(ListingToJson(findings), findings)
  {
    forall i | 0 <= i < |findings|
      ensures Describes(findings[i].name, Json.Object(FindingEntries(findings[i])), findings[i])
    {
      FindingRoundTrip(findings[i]);
    }
  }

  /** Writing a consistent report and parsing it back gives the same report. */
  lemma ReportIsReadBack(r: Report)
    requires Consistent(r) && forall f :: f in r.findings ==> RepresentableFinding(f)
    ensures ReportOf(Json.Object(ReportFields(r))) == Available(r)
  {
    var payload := Json.Object(ReportFields(r));
    ReportShape(r);
    CountsRoundTrip(r.counts, r.total);
    ListingRoundTrip(r.findings);
    assert Accepts(payload, r);
    AcceptsIsFunctional(payload, r, ReportOf(payload).report);
  }
}
