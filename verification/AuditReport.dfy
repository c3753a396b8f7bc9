/**
  The `npm audit --json` (report version 2) parser. A payload is a report only when every listed
  vulnerability has the supported structure and the listing agrees with the declared counts;
  everything else is unavailable, which proves neither a clean audit nor a vulnerability.
 */
module AuditReport {
  import opened Prelude
  import Json

  datatype Severity = Info | Low | Moderate | High | Critical

  const AUDIT_SEVERITIES := [Info, Low, Moderate, High, Critical]

  function SeverityName(s: Severity): string {
    match s
    case Info => "info"
    case Low => "low"
    case Moderate => "moderate"
    case High => "high"
    case Critical => "critical"
  }

  datatype AdvisoryCause = AdvisoryCause(
    source: Json.Value,
    dependency: string,
    title: string,
    url: string,
    severity: Severity,
    range: string)

  datatype Cause = Inherited(name: string) | Advisory(advisory: AdvisoryCause)

  datatype Finding = Finding(
    name: string,
    severity: Severity,
    isDirect: bool,
    via: seq<Cause>,
    effects: seq<string>,
    range: string,
    nodes: seq<string>)

  /** One number per severity. */
  datatype Tally = Tally(info: nat, low: nat, moderate: nat, high: nat, critical: nat) {
    function At(s: Severity): nat {
      match s
      case Info => info
      case Low => low
      case Moderate => moderate
      case High => high
      case Critical => critical
    }

    function With(s: Severity, n: nat): (t: Tally)
      ensures t.At(s) == n
      ensures forall other :: other != s ==> t.At(other) == At(other)
    {
      match s
      case Info => this.(info := n)
      case Low => this.(low := n)
      case Moderate => this.(moderate := n)
      case High => this.(high := n)
      case Critical => this.(critical := n)
    }

    function Sum(): nat {
      info + low + moderate + high + critical
    }
  }

  const ZERO := Tally(0, 0, 0, 0, 0)

  datatype Report = Report(findings: seq<Finding>, counts: Tally, total: nat)

  datatype ParseResult = Available(report: Report) | Unavailable

  // ---------------------------------------------------------------- reading JSON values

  function AsSeverity(v: Json.Value): (s: Option<Severity>)
    ensures forall x :: s == Some(x) <==> v == Json.String(SeverityName(x))
  {
    if v == Json.String("info") then Some(Info)
    else if v == Json.String("low") then Some(Low)
    else if v == Json.String("moderate") then Some(Moderate)
    else if v == Json.String("high") then Some(High)
    else if v == Json.String("critical") then Some(Critical)
    else None
  }

  /** A non-negative integer count, or nothing. */
  function AsCount(v: Json.Value): (n: Option<nat>)
    ensures forall k: nat :: n == Some(k) <==> v == Json.Number(k as real)
  {
    if v.Number? && v.n >= 0.0 && v.n.Floor as real == v.n then Some(v.n.Floor) else None
  }

  predicate IsStringArray(v: Json.Value) {
    v.Array? && forall i :: 0 <= i < |v.items| ==> v.items[i].String?
  }

  function Strings(v: Json.Value): seq<string>
    requires IsStringArray(v)
  {
    seq(|v.items|, i requires 0 <= i < |v.items| => v.items[i].s)
  }

  /** The `??` operator. */
  function OrElse(v: Json.Value, fallback: Json.Value): Json.Value {
    if v.Undefined? || v.Null? then fallback else v
  }

  function ParseCause(v: Json.Value): Option<Cause> {
    if v.String? then
      if v.s != "" then Some(Inherited(v.s)) else None
    else if !v.Object? then None
    else
      var dependency := OrElse(Json.Get(v, "dependency"), Json.Get(v, "name"));
      var url, title := Json.Get(v, "url"), Json.Get(v, "title");
      var range, severity := Json.Get(v, "range"), AsSeverity(Json.Get(v, "severity"));
      if dependency.String? && url.String? && title.String? && range.String? && severity.Some? then
        var source := Json.Get(v, "source");
        Some(Advisory(AdvisoryCause(
          if source.Number? || source.NonFinite? || source.String? then source else Json.Null,
          dependency.s, title.s, url.s, severity.value, range.s)))
      else None
  }

  // ---------------------------------------------------------------- what a finding describes

  /** Every item is a supported cause, and `via` lists them in order. */
  ghost predicate AreCauses(items: seq<Json.Value>, via: seq<Cause>) {
    |items| == |via| && forall i :: 0 <= i < |via| ==> ParseCause(items[i]) == Some(via[i])
  }

  lemma CausesAreFunctional(items: seq<Json.Value>, a: seq<Cause>, b: seq<Cause>)
    requires AreCauses(items, a) && AreCauses(items, b)
    ensures a == b
  {
  }

  method ParseVia(items: seq<Json.Value>) returns (r: Option<seq<Cause>>)
    ensures r.Some? ==> AreCauses(items, r.value)
    ensures r.None? ==> forall via :: !AreCauses(items, via)
  {
    var via: seq<Cause> := [];
    for i := 0 to |items|
      invariant AreCauses(items[..i], via)
    {
      var cause := ParseCause(items[i]);
      if cause.None? {
        return None;
      }
      via := via + [cause.value];
    }
    assert items[..|items|] == items;
    return Some(via);
  }

  /** Finding `f` is what the vulnerability entry `key: value` says, and the entry is complete. */
  ghost predicate Describes(key: string, value: Json.Value, f: Finding) {
    var via, nodes := Json.Get(value, "via"), Json.Get(value, "nodes");
    var effects := OrElse(Json.Get(value, "effects"), Json.Array([]));
    && value.Object?
    && Json.Get(value, "name") == Json.String(key)
    && f.name == key
    && Json.Get(value, "severity") == Json.String(SeverityName(f.severity))
    && via.Array? && f.via != [] && AreCauses(via.items, f.via)
    && IsStringArray(nodes) && f.nodes == Strings(nodes)
    && IsStringArray(effects) && f.effects == Strings(effects)
    && Json.Get(value, "range") == Json.String(f.range)
    && f.isDirect == (Json.Get(value, "isDirect") == Json.Bool(true))
  }

  lemma DescribesIsFunctional(key: string, value: Json.Value, f: Finding, g: Finding)
    requires Describes(key, value, f) && Describes(key, value, g)
    ensures f == g
  {
    CausesAreFunctional(Json.Get(value, "via").items, f.via, g.via);
    assert AsSeverity(Json.Get(value, "severity")) == Some(f.severity);
    assert AsSeverity(Json.Get(value, "severity")) == Some(g.severity);
  }

  method ParseFinding(key: string, value: Json.Value) returns (r: Option<Finding>)
    ensures forall f :: r == Some(f) <==> Describes(key, value, f)
  {
    var severity := AsSeverity(Json.Get(value, "severity"));
    var entryVia, nodes := Json.Get(value, "via"), Json.Get(value, "nodes");
    var effects := OrElse(Json.Get(value, "effects"), Json.Array([]));
    var range := Json.Get(value, "range");
    if !value.Object? || Json.Get(value, "name") != Json.String(key) || severity.None? ||
       !entryVia.Array? || |entryVia.items| == 0 || !IsStringArray(nodes) || !IsStringArray(effects) ||
       !range.String?
    {
      return None;
    }
    var parsedVia := ParseVia(entryVia.items);
    if parsedVia.None? {
      return None;
    }
    var via := parsedVia.value;
    var finding := Finding(key, severity.value, Json.Get(value, "isDirect") == Json.Bool(true), via,
                           Strings(effects), range.s, Strings(nodes));
    assert Describes(key, value, finding);
    forall f | Describes(key, value, f) ensures f == finding {
      DescribesIsFunctional(key, value, f, finding);
    }
    return Some(finding);
  }

  // ---------------------------------------------------------------- what a report describes

  function CountOf(findings: seq<Finding>, s: Severity): nat {
    if findings == [] then 0
    else CountOf(findings[..|findings| - 1], s) + if findings[|findings| - 1].severity == s then 1 else 0
  }

  ghost predicate DeclaresCounts(metadata: Json.Value, counts: Tally, total: nat) {
    && (forall s :: Json.Get(metadata, SeverityName(s)) == Json.Number(counts.At(s) as real))
    && Json.Get(metadata, "total") == Json.Number(total as real)
  }

  function VulnerabilitiesOf(payload: Json.Value): Json.Value {
    Json.Get(payload, "vulnerabilities")
  }

  function MetadataOf(payload: Json.Value): Json.Value {
    Json.Get(Json.Get(payload, "metadata"), "vulnerabilities")
  }

  /** `findings` are the listed vulnerabilities, in order, each completely described. */
  ghost predicate Lists(fields: seq<Json.Field<Json.Value>>, findings: seq<Finding>) {
    && |findings| == |fields|
    && forall i :: 0 <= i < |fields| ==> Describes(fields[i].key, fields[i].value, findings[i])
  }

  ghost predicate Tallies(tally: Tally, findings: seq<Finding>) {
    forall s :: tally.At(s) == CountOf(findings, s)
  }

  predicate HasReportShape(payload: Json.Value) {
    && Json.Get(payload, "auditReportVersion") == Json.Number(2.0)
    && VulnerabilitiesOf(payload).Object? && MetadataOf(payload).Object?
  }

  /** The payload is a complete, internally consistent report, and `report` is what it says. */
  ghost predicate Accepts(payload: Json.Value, report: Report) {
    && HasReportShape(payload)
    && DeclaresCounts(MetadataOf(payload), report.counts, report.total)
    && Lists(VulnerabilitiesOf(payload).fields, report.findings)
    && Tallies(report.counts, report.findings)
    && report.total == |report.findings|
  }

  lemma ListsIsFunctional(fields: seq<Json.Field<Json.Value>>, a: seq<Finding>, b: seq<Finding>)
    requires Lists(fields, a) && Lists(fields, b)
    ensures a == b
  {
    forall i | 0 <= i < |a| ensures a[i] == b[i] {
      DescribesIsFunctional(fields[i].key, fields[i].value, a[i], b[i]);
    }
  }

  lemma SameTally(a: Tally, b: Tally)
    requires forall s :: a.At(s) == b.At(s)
    ensures a == b
  {
    assert a.At(Info) == b.At(Info) && a.At(Low) == b.At(Low) && a.At(Moderate) == b.At(Moderate);
    assert a.At(High) == b.At(High) && a.At(Critical) == b.At(Critical);
  }

  lemma DeclaresIsFunctional(metadata: Json.Value, a: Tally, m: nat, b: Tally, n: nat)
    requires DeclaresCounts(metadata, a, m) && DeclaresCounts(metadata, b, n)
    ensures a == b && m == n
  {
    forall s ensures a.At(s) == b.At(s) {
      assert Json.Number(a.At(s) as real) == Json.Get(metadata, SeverityName(s)) == Json.Number(b.At(s) as real);
    }
    SameTally(a, b);
    assert Json.Number(m as real) == Json.Number(n as real);
  }

  lemma AcceptsIsFunctional(payload: Json.Value, r1: Report, r2: Report)
    requires Accepts(payload, r1) && Accepts(payload, r2)
    ensures r1 == r2
  {
    ListsIsFunctional(VulnerabilitiesOf(payload).fields, r1.findings, r2.findings);
    DeclaresIsFunctional(MetadataOf(payload), r1.counts, r1.total, r2.counts, r2.total);
  }

  /** The report a payload stands for; everything the parser does is measured against this. */
  ghost function ReportOf(payload: Json.Value): ParseResult {
    if exists report :: Accepts(payload, report) then
      var report :| Accepts(payload, report);
      Available(report)
    else Unavailable
  }

  lemma {:induction false} CountsSumToLength(findings: seq<Finding>)
    ensures CountOf(findings, Info) + CountOf(findings, Low) + CountOf(findings, Moderate)
            + CountOf(findings, High) + CountOf(findings, Critical) == |findings|
  {
    if findings != [] {
      CountsSumToLength(findings[..|findings| - 1]);
    }
  }

  method ParseCounts(metadata: Json.Value) returns (r: Option<(Tally, nat)>)
    ensures r.Some? ==> DeclaresCounts(metadata, r.value.0, r.value.1)
    ensures r.None? ==> forall counts: Tally, total: nat :: !DeclaresCounts(metadata, counts, total)
  {
    var counts := ZERO;
    for i := 0 to |AUDIT_SEVERITIES|
      invariant forall j :: 0 <= j < i ==>
        var s := AUDIT_SEVERITIES[j]; Json.Get(metadata, SeverityName(s)) == Json.Number(counts.At(s) as real)
    {
      var severity := AUDIT_SEVERITIES[i];
      var count := AsCount(Json.Get(metadata, SeverityName(severity)));
      if count.None? {
        forall c: Tally, t: nat ensures !DeclaresCounts(metadata, c, t) {
          assert AsCount(Json.Number(c.At(severity) as real)) == Some(c.At(severity));
        }
        return None;
      }
      counts := counts.With(severity, count.value);
    }
    var total := AsCount(Json.Get(metadata, "total"));
    if total.None? {
      forall c: Tally, t: nat ensures !DeclaresCounts(metadata, c, t) {
        assert AsCount(Json.Number(t as real)) == Some(t);
      }
      return None;
    }
    forall s ensures Json.Get(metadata, SeverityName(s)) == Json.Number(counts.At(s) as real) {
      var i := match s case Info => 0 case Low => 1 case Moderate => 2 case High => 3 case Critical => 4;
      assert s == AUDIT_SEVERITIES[i];
    }
    return Some((counts, total.value));
  }

  lemma OneMoreListed(fields: seq<Json.Field<Json.Value>>, i: nat, findings: seq<Finding>, f: Finding)
    requires i < |fields| && Lists(fields[..i], findings) && Describes(fields[i].key, fields[i].value, f)
    ensures Lists(fields[..i + 1], findings + [f])
  {
    var longer := findings + [f];
    forall j | 0 <= j < i + 1 ensures Describes(fields[..i + 1][j].key, fields[..i + 1][j].value, longer[j]) {
      if j < i {
        assert Describes(fields[..i][j].key, fields[..i][j].value, findings[j]);
      }
    }
  }

  lemma OneUndescribed(fields: seq<Json.Field<Json.Value>>, i: nat, findings: seq<Finding>)
    requires i < |fields| && forall f :: !Describes(fields[i].key, fields[i].value, f)
    ensures !Lists(fields, findings)
  {
    if |findings| == |fields| {
      assert !Describes(fields[i].key, fields[i].value, findings[i]);
    }
  }

  /** `finding` is what the entry describes, if it is complete. */
  ghost predicate IsReading(field: Json.Field<Json.Value>, finding: Option<Finding>) {
    forall f :: finding == Some(f) <==> Describes(field.key, field.value, f)
  }

  lemma UndescribedIsUnlisted(fields: seq<Json.Field<Json.Value>>, i: nat)
    requires i < |fields| && IsReading(fields[i], None)
    ensures forall findings :: !Lists(fields, findings)
  {
    forall findings ensures !Lists(fields, findings) {
      OneUndescribed(fields, i, findings);
    }
  }

  lemma ListingStep(fields: seq<Json.Field<Json.Value>>, i: nat, findings: seq<Finding>, tally: Tally, f: Finding)
    requires i < |fields| && Lists(fields[..i], findings) && IsReading(fields[i], Some(f)) && Tallies(tally, findings)
    ensures Lists(fields[..i + 1], findings + [f])
    ensures Tallies(tally.With(f.severity, tally.At(f.severity) + 1), findings + [f])
  {
    OneMoreListed(fields, i, findings, f);
    TallyStep(tally, findings, f);
  }

  method ParseListing(fields: seq<Json.Field<Json.Value>>) returns (r: Option<(seq<Finding>, Tally)>)
    ensures r.Some? ==> Lists(fields, r.value.0) && Tallies(r.value.1, r.value.0)
    ensures r.None? ==> forall findings :: !Lists(fields, findings)
  {
    var findings: seq<Finding> := [];
    var tally := ZERO;
    for i := 0 to |fields|
      invariant Lists(fields[..i], findings)
      invariant Tallies(tally, findings)
    {
      var finding := ParseFinding(fields[i].key, fields[i].value);
      assert IsReading(fields[i], finding);
      if finding.None? {
        UndescribedIsUnlisted(fields, i);
        return None;
      }
      ListingStep(fields, i, findings, tally, finding.value);
      tally := tally.With(finding.value.severity, tally.At(finding.value.severity) + 1);
      findings := findings + [finding.value];
    }
    assert fields[..|fields|] == fields;
    return Some((findings, tally));
  }

  method ParsePayload(payload: Json.Value) returns (r: ParseResult)
    ensures r == ReportOf(payload)
  {
    if !HasReportShape(payload) {
      return Unavailable;
    }
    var declaredCounts := ParseCounts(MetadataOf(payload));
    if declaredCounts.None? {
      return Unavailable;
    }
    var listing := ParseListing(VulnerabilitiesOf(payload).fields);
    if listing.None? {
      return Unavailable;
    }
    var (counts, total) := declaredCounts.value;
    var (findings, tally) := listing.value;
    TallySum(tally, findings);
    forall report | Accepts(payload, report) ensures report == Report(findings, counts, total) && tally == counts {
      ListsIsFunctional(VulnerabilitiesOf(payload).fields, report.findings, findings);
      DeclaresIsFunctional(MetadataOf(payload), report.counts, report.total, counts, total);
      SameTally(tally, counts);
    }
    if tally != counts || total != counts.Sum() || tally.Sum() != total {
      return Unavailable;
    }
    assert Accepts(payload, Report(findings, counts, total));
    return Available(Report(findings, counts, total));
  }

  lemma TallyStep(tally: Tally, findings: seq<Finding>, f: Finding)
    requires Tallies(tally, findings)
    ensures Tallies(tally.With(f.severity, tally.At(f.severity) + 1), findings + [f])
  {
    assert (findings + [f])[..|findings|] == findings;
  }

  lemma TallySum(tally: Tally, findings: seq<Finding>)
    requires Tallies(tally, findings)
    ensures tally.Sum() == |findings|
  {
    CountsSumToLength(findings);
    assert tally.info == tally.At(Info) && tally.low == tally.At(Low) && tally.moderate == tally.At(Moderate);
    assert tally.high == tally.At(High) && tally.critical == tally.At(Critical);
  }

  // ---------------------------------------------------------------- what an accepted report guarantees

  predicate DistinctNames(findings: seq<Finding>) {
    forall i, j :: 0 <= i < j < |findings| ==> findings[i].name != findings[j].name
  }

  /** The invariants every later step of the gate relies on. */
  ghost predicate Consistent(report: Report) {
    && DistinctNames(report.findings)
    && (forall f :: f in report.findings ==> f.via != [])
    && Tallies(report.counts, report.findings)
    && report.total == |report.findings| == report.counts.Sum()
  }

  lemma AcceptedIsConsistent(payload: Json.Value, report: Report)
    requires ReportOf(payload) == Available(report)
    ensures Accepts(payload, report) && Consistent(report)
  {
    var listed := VulnerabilitiesOf(payload).fields;
    forall i | 0 <= i < |listed| ensures report.findings[i].name == listed[i].key && report.findings[i].via != [] {
      assert Describes(listed[i].key, listed[i].value, report.findings[i]);
    }
    forall i, j | 0 <= i < j < |report.findings| ensures report.findings[i].name != report.findings[j].name {
      assert Json.DistinctKeys(listed);
      assert report.findings[i].name == listed[i].key && report.findings[j].name == listed[j].key;
    }
    TallySum(report.counts, report.findings);
  }

  /** The declared counts fix how many findings of each severity an accepted report lists. */
  lemma MetadataFixesListing(p1: Json.Value, r1: Report, p2: Json.Value, r2: Report)
    requires ReportOf(p1) == Available(r1) && ReportOf(p2) == Available(r2)
    requires MetadataOf(p1) == MetadataOf(p2)
    ensures |r1.findings| == |r2.findings|
    ensures forall s :: CountOf(r1.findings, s) == CountOf(r2.findings, s)
  {
    assert Accepts(p1, r1) && Accepts(p2, r2);
    DeclaresIsFunctional(MetadataOf(p1), r1.counts, r1.total, r2.counts, r2.total);
    assert Tallies(r1.counts, r1.findings) && Tallies(r2.counts, r2.findings);
  }

  /** A listing with the entries under `keys` deleted. */
  function WithoutKeys(fields: seq<Json.Field<Json.Value>>, keys: set<string>): (r: seq<Json.Field<Json.Value>>)
    ensures forall field :: field in r <==> field in fields && field.key !in keys
    ensures |r| <= |fields|
    ensures (exists field :: field in fields && field.key in keys) ==> |r| < |fields|
  {
    if fields == [] then []
    else
      var rest := WithoutKeys(fields[1..], keys);
      assert fields == [fields[0]] + fields[1..];
      if fields[0].key in keys then rest else [fields[0]] + rest
  }

  /** A partial report is never accepted: dropping listed vulnerabilities makes it unavailable. */
  lemma PartialReportIsUnavailable(full: Json.Value, report: Report, partial: Json.Value, dropped: set<string>)
    requires ReportOf(full) == Available(report)
    requires Json.Get(partial, "metadata") == Json.Get(full, "metadata")
    requires VulnerabilitiesOf(partial).Object?
    requires VulnerabilitiesOf(partial).fields == WithoutKeys(VulnerabilitiesOf(full).fields, dropped)
    requires exists f :: f in report.findings && f.name in dropped
    ensures ReportOf(partial) == Unavailable
  {
    AcceptedIsConsistent(full, report);
    var listed := VulnerabilitiesOf(full).fields;
    assert |WithoutKeys(listed, dropped)| < |listed| by {
      var i :| 0 <= i < |report.findings| && report.findings[i].name in dropped;
      assert Describes(listed[i].key, listed[i].value, report.findings[i]);
      assert listed[i] in listed && listed[i].key in dropped;
    }
    if ReportOf(partial).Available? {
      var claimed := ReportOf(partial).report;
      AcceptedIsConsistent(partial, claimed);
      MetadataFixesListing(full, report, partial, claimed);
    }
  }

  // ---------------------------------------------------------------- advisory identifiers

  const ADVISORY_PREFIX := "https://github.com/advisories/"

  predicate IsIdentifierChar(c: char) {
    'a' <= c <= 'z' || '0' <= c <= '9'
  }

  /** GHSA-xxxx-xxxx-xxxx over lower-case letters and digits. */
  predicate IsAdvisoryId(id: string) {
    && |id| == 19
    && id[..5] == "GHSA-" && id[9] == '-' && id[14] == '-'
    && forall i :: 5 <= i < 19 && i != 9 && i != 14 ==> IsIdentifierChar(id[i])
  }

  function AdvisoryIdFromUrl(url: string): (r: Option<string>)
    ensures forall id :: r == Some(id) <==> url == ADVISORY_PREFIX + id && IsAdvisoryId(id)
  {
    var n := |ADVISORY_PREFIX|;
    if |url| >= n && url[..n] == ADVISORY_PREFIX && IsAdvisoryId(url[n..]) then
      assert url == ADVISORY_PREFIX + url[n..];
      Some(url[n..])
    else
      assert forall id :: (ADVISORY_PREFIX + id)[..n] == ADVISORY_PREFIX && (ADVISORY_PREFIX + id)[n..] == id;
      None
  }
}
