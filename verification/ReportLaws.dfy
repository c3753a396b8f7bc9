/**
  Which JSON values are causes, findings and reports, property by property: every refusal of the parser, and every
  fallback it allows.
 */
module ReportLaws {
  import opened Prelude
  import opened AuditReport
  import Json

  /** The value is the name of the severity. */
  predicate NamesSeverity(v: Json.Value, s: Severity) {
    match s
    case Info => v == Json.String("info")
    case Low => v == Json.String("low")
    case Moderate => v == Json.String("moderate")
    case High => v == Json.String("high")
    case Critical => v == Json.String("critical")
  }

  lemma SeverityExactly(v: Json.Value, s: Severity)
    ensures AsSeverity(v) == Some(s) <==> NamesSeverity(v, s)
    ensures v == Json.String(SeverityName(s)) <==> NamesSeverity(v, s)
  {
  }

  /** The advisory is what the value says: its package under "dependency", or under "name" when that is absent. */
  predicate SaysAdvisory(v: Json.Value, a: AdvisoryCause) {
    var dependency, source := Json.Get(v, "dependency"), Json.Get(v, "source");
    && v.Object?
    && (if dependency == Json.Undefined || dependency == Json.Null
        then Json.Get(v, "name") == Json.String(a.dependency)
        else dependency == Json.String(a.dependency))
    && Json.Get(v, "url") == Json.String(a.url) && Json.Get(v, "title") == Json.String(a.title)
    && Json.Get(v, "range") == Json.String(a.range) && NamesSeverity(Json.Get(v, "severity"), a.severity)
    && a.source == (match source case Number(_) => source case NonFinite => source case String(_) => source
                    case _ => Json.Null)
  }

  predicate SaysCause(v: Json.Value, c: Cause) {
    match c
    case Inherited(name) => name != "" && v == Json.String(name)
    case Advisory(a) => SaysAdvisory(v, a)
  }

  lemma AdvisoryExactly(v: Json.Value, a: AdvisoryCause)
    ensures ParseCause(v) == Some(Advisory(a)) <==> SaysAdvisory(v, a)
  {
    SeverityExactly(Json.Get(v, "severity"), a.severity);
  }

  /** A value is read as a cause exactly when it says that cause. */
  lemma CauseExactly(v: Json.Value, c: Cause)
    ensures ParseCause(v) == Some(c) <==> SaysCause(v, c)
  {
    if c.Advisory? {
      AdvisoryExactly(v, c.advisory);
    }
  }

  /** The value is the list of these texts. */
  predicate ListsTexts(v: Json.Value, texts: seq<string>) {
    v.Array? && |v.items| == |texts| && forall i | 0 <= i < |texts| :: v.items[i] == Json.String(texts[i])
  }

  lemma TextsExactly(v: Json.Value, texts: seq<string>)
    ensures IsStringArray(v) && texts == Strings(v) <==> ListsTexts(v, texts)
  {
  }

  /** The finding is what the entry under `key` says. */
  predicate SaysFinding(key: string, v: Json.Value, f: Finding) {
    var via, effects := Json.Get(v, "via"), Json.Get(v, "effects");
    && v.Object? && Json.Get(v, "name") == Json.String(key) && f.name == key
    && NamesSeverity(Json.Get(v, "severity"), f.severity)
    && via.Array? && |via.items| > 0 && |f.via| == |via.items|
    && (forall i | 0 <= i < |f.via| :: SaysCause(via.items[i], f.via[i]))
    && ListsTexts(Json.Get(v, "nodes"), f.nodes)
    && (if effects == Json.Undefined || effects == Json.Null then f.effects == [] else ListsTexts(effects, f.effects))
    && Json.Get(v, "range") == Json.String(f.range)
    && f.isDirect == (Json.Get(v, "isDirect") == Json.Bool(true))
  }

  lemma CausesExactly(items: seq<Json.Value>, via: seq<Cause>)
    ensures AreCauses(items, via) <==>
            |via| == |items| && forall i | 0 <= i < |via| :: SaysCause(items[i], via[i])
  {
    if |via| == |items| {
      forall i | 0 <= i < |via| ensures ParseCause(items[i]) == Some(via[i]) <==> SaysCause(items[i], via[i]) {
        CauseExactly(items[i], via[i]);
      }
    }
  }

  lemma EffectsExactly(effects: Json.Value, texts: seq<string>)
    ensures var v := OrElse(effects, Json.Array([]));
            IsStringArray(v) && texts == Strings(v) <==>
            if effects == Json.Undefined || effects == Json.Null then texts == [] else ListsTexts(effects, texts)
  {
    TextsExactly(OrElse(effects, Json.Array([])), texts);
  }

  /** An entry describes a finding exactly when it says it. */
  lemma FindingExactly(key: string, v: Json.Value, f: Finding)
    ensures Describes(key, v, f) <==> SaysFinding(key, v, f)
  {
    SeverityExactly(Json.Get(v, "severity"), f.severity);
    TextsExactly(Json.Get(v, "nodes"), f.nodes);
    EffectsExactly(Json.Get(v, "effects"), f.effects);
    if Json.Get(v, "via").Array? {
      CausesExactly(Json.Get(v, "via").items, f.via);
    }
  }

  // ---------------------------------------------------------------- whole reports

  function PositionsOf(findings: seq<Finding>, s: Severity): set<int> {
    set i | 0 <= i < |findings| && findings[i].severity == s
  }

  lemma {:induction false} CountExactly(findings: seq<Finding>, s: Severity)
    ensures CountOf(findings, s) == |PositionsOf(findings, s)|
  {
    if findings != [] {
      var n := |findings| - 1;
      var front := findings[..n];
      CountExactly(front, s);
      assert PositionsOf(findings, s) == PositionsOf(front, s) + if findings[n].severity == s then {n} else {};
    }
  }

  /** The metadata declares how many findings there are of each severity, and in all. */
  ghost predicate SaysCounts(metadata: Json.Value, findings: seq<Finding>) {
    && Json.Get(metadata, "info") == Json.Number(|PositionsOf(findings, Info)| as real)
    && Json.Get(metadata, "low") == Json.Number(|PositionsOf(findings, Low)| as real)
    && Json.Get(metadata, "moderate") == Json.Number(|PositionsOf(findings, Moderate)| as real)
    && Json.Get(metadata, "high") == Json.Number(|PositionsOf(findings, High)| as real)
    && Json.Get(metadata, "critical") == Json.Number(|PositionsOf(findings, Critical)| as real)
    && Json.Get(metadata, "total") == Json.Number(|findings| as real)
  }

  function TallyOf(findings: seq<Finding>): Tally {
    Tally(|PositionsOf(findings, Info)|, |PositionsOf(findings, Low)|, |PositionsOf(findings, Moderate)|,
          |PositionsOf(findings, High)|, |PositionsOf(findings, Critical)|)
  }

  /** The report is what the listing and the metadata say, and they agree. */
  ghost predicate SaysListing(listed: Json.Value, metadata: Json.Value, report: Report) {
    && listed.Object? && |report.findings| == |listed.fields|
    && (forall i :: 0 <= i < |listed.fields| ==>
          SaysFinding(listed.fields[i].key, listed.fields[i].value, report.findings[i]))
    && metadata.Object? && SaysCounts(metadata, report.findings)
    && report.counts == TallyOf(report.findings) && report.total == |report.findings|
  }

  /** The report is what the payload says, and the payload is complete and consistent. */
  ghost predicate SaysReport(payload: Json.Value, report: Report) {
    && Json.Get(payload, "auditReportVersion") == Json.Number(2.0)
    && SaysListing(Json.Get(payload, "vulnerabilities"), Json.Get(Json.Get(payload, "metadata"), "vulnerabilities"),
                   report)
  }

  lemma TalliesExactly(tally: Tally, findings: seq<Finding>)
    ensures Tallies(tally, findings) <==> tally == TallyOf(findings)
  {
    forall s ensures CountOf(findings, s) == |PositionsOf(findings, s)| {
      CountExactly(findings, s);
    }
    var t := TallyOf(findings);
    forall s: Severity ensures t.At(s) == CountOf(findings, s) {
      assert t.At(s) == |PositionsOf(findings, s)|;
    }
    if Tallies(tally, findings) {
      SameTally(tally, t);
    }
  }

  predicate DeclaresOne(metadata: Json.Value, t: Tally, s: Severity) {
    Json.Get(metadata, SeverityName(s)) == Json.Number(t.At(s) as real)
  }

  lemma DeclaresOneExactly(metadata: Json.Value, t: Tally, s: Severity)
    ensures DeclaresOne(metadata, t, s) <==>
            match s
            case Info => Json.Get(metadata, "info") == Json.Number(t.info as real)
            case Low => Json.Get(metadata, "low") == Json.Number(t.low as real)
            case Moderate => Json.Get(metadata, "moderate") == Json.Number(t.moderate as real)
            case High => Json.Get(metadata, "high") == Json.Number(t.high as real)
            case Critical => Json.Get(metadata, "critical") == Json.Number(t.critical as real)
  {
  }

  lemma EachDeclared(metadata: Json.Value, t: Tally)
    ensures (forall s :: DeclaresOne(metadata, t, s)) <==>
            && DeclaresOne(metadata, t, Info) && DeclaresOne(metadata, t, Low) && DeclaresOne(metadata, t, Moderate)
            && DeclaresOne(metadata, t, High) && DeclaresOne(metadata, t, Critical)
  {
    if DeclaresOne(metadata, t, Info) && DeclaresOne(metadata, t, Low) && DeclaresOne(metadata, t, Moderate)
       && DeclaresOne(metadata, t, High) && DeclaresOne(metadata, t, Critical) {
      forall s ensures DeclaresOne(metadata, t, s) {
        match s case Info => case Low => case Moderate => case High => case Critical =>
      }
    }
  }

  lemma DeclaredBySeverity(metadata: Json.Value, t: Tally, total: nat)
    ensures DeclaresCounts(metadata, t, total) <==>
            (forall s :: DeclaresOne(metadata, t, s)) && Json.Get(metadata, "total") == Json.Number(total as real)
  {
    if forall s :: DeclaresOne(metadata, t, s) {
      forall s ensures Json.Get(metadata, SeverityName(s)) == Json.Number(t.At(s) as real) {
        assert DeclaresOne(metadata, t, s);
      }
    }
    if forall s :: Json.Get(metadata, SeverityName(s)) == Json.Number(t.At(s) as real) {
      forall s ensures DeclaresOne(metadata, t, s) {
        assert Json.Get(metadata, SeverityName(s)) == Json.Number(t.At(s) as real);
      }
    }
  }

  lemma DeclaredExactly(metadata: Json.Value, t: Tally, total: nat)
    ensures DeclaresCounts(metadata, t, total) <==>
            && Json.Get(metadata, "info") == Json.Number(t.info as real)
            && Json.Get(metadata, "low") == Json.Number(t.low as real)
            && Json.Get(metadata, "moderate") == Json.Number(t.moderate as real)
            && Json.Get(metadata, "high") == Json.Number(t.high as real)
            && Json.Get(metadata, "critical") == Json.Number(t.critical as real)
            && Json.Get(metadata, "total") == Json.Number(total as real)
  {
    DeclaredBySeverity(metadata, t, total);
    EachDeclared(metadata, t);
    DeclaresOneExactly(metadata, t, Info);
    DeclaresOneExactly(metadata, t, Low);
    DeclaresOneExactly(metadata, t, Moderate);
    DeclaresOneExactly(metadata, t, High);
    DeclaresOneExactly(metadata, t, Critical);
  }

  lemma ListedExactly(fields: seq<Json.Field<Json.Value>>, findings: seq<Finding>)
    ensures Lists(fields, findings) <==>
            && |findings| == |fields|
            && forall i :: 0 <= i < |fields| ==> SaysFinding(fields[i].key, fields[i].value, findings[i])
  {
    if |findings| == |fields| {
      forall i | 0 <= i < |fields|
        ensures Describes(fields[i].key, fields[i].value, findings[i])
                <==> SaysFinding(fields[i].key, fields[i].value, findings[i])
      {
        FindingExactly(fields[i].key, fields[i].value, findings[i]);
      }
    }
  }

  lemma ListingExactly(listed: Json.Value, metadata: Json.Value, report: Report)
    ensures SaysListing(listed, metadata, report) <==>
            && listed.Object? && metadata.Object?
            && DeclaresCounts(metadata, report.counts, report.total) && Lists(listed.fields, report.findings)
            && Tallies(report.counts, report.findings) && report.total == |report.findings|
  {
    TalliesExactly(report.counts, report.findings);
    DeclaredExactly(metadata, report.counts, report.total);
    if listed.Object? {
      ListedExactly(listed.fields, report.findings);
    }
  }

  /** A payload is accepted as a report exactly when it says that report. */
  lemma ReportExactly(payload: Json.Value, report: Report)
    ensures Accepts(payload, report) <==> SaysReport(payload, report)
  {
    ListingExactly(VulnerabilitiesOf(payload), MetadataOf(payload), report);
  }

  /** The parser's result for a payload. */
  lemma ResultExactly(payload: Json.Value, report: Report)
    ensures ReportOf(payload) == Available(report) <==> SaysReport(payload, report)
  {
    ReportExactly(payload, report);
    if Accepts(payload, report) {
      AcceptsIsFunctional(payload, report, ReportOf(payload).report);
    }
  }
}
