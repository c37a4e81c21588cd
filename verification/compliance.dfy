/**
  The compliance orchestrator: four named checks run in a fixed order, each
  wrapped so that an exception becomes a "FAIL: <message>" entry and never
  stops the checks after it.  Also the SBOM document the fourth check writes.

  Writing the SBOM file is an input (`WriteOutcome`): it succeeds, or raises
  with a message.
 */
module Compliance {
  import opened Results
  import opened Clock
  import opened Certificate

  /** The check names, in the order the checks run and the result map lists them. */
  const CheckNames: seq<string> := ["certificate", "module", "algorithms", "sbom"]

  const PassText: string := "PASS"
  const FailPrefix: string := "FAIL: "

  /** One entry of the result map: a check name and its rendered outcome. */
  datatype Entry = Entry(check: string, value: string)

  /** The text stored for an outcome: "PASS", or "FAIL: " followed by `str(e)`. */
  function RenderOutcome(outcome: CheckResult): (s: string)
    ensures s == PassText <==> outcome.Pass?
    ensures outcome.Fail? ==> |s| == |FailPrefix| + |outcome.msg| && s[..|FailPrefix|] == FailPrefix
    ensures outcome.Fail? ==> s[|FailPrefix|..] == outcome.msg
  {
    match outcome
    case Pass => PassText
    case Fail(m) =>
      var s := FailPrefix + m;
      assert s[0] != PassText[0];
      s
  }

  /** Reads a stored text back into an outcome; `None` for text no check produces. */
  function ParseOutcome(s: string): (r: Option<CheckResult>)
    ensures r == Some(Pass) <==> s == PassText
    ensures r.Some? && r.value.Fail? ==> s == FailPrefix + r.value.msg
  {
    if s == PassText then Some(Pass)
    else if |s| >= |FailPrefix| && s[..|FailPrefix|] == FailPrefix then
      assert s == s[..|FailPrefix|] + s[|FailPrefix|..];
      Some(Fail(s[|FailPrefix|..]))
    else None
  }

  /** Every outcome survives rendering and reading back, message included. */
  lemma RenderRoundTrip(outcome: CheckResult)
    ensures ParseOutcome(RenderOutcome(outcome)) == Some(outcome)
  {
    match outcome
    case Pass =>
    case Fail(m) =>
      var s := FailPrefix + m;
      assert s[..|FailPrefix|] == FailPrefix;
      assert s[|FailPrefix|..] == m;
  }

  function Render(check: string, outcome: CheckResult): Entry {
    Entry(check, RenderOutcome(outcome))
  }

  /**
    Module integrity: a placeholder that succeeds in every driver state,
    whatever certificate the validator holds or would load.
   */
  function ModuleCheck(a: Automation): (r: CheckResult)
    ensures r.Pass?
  {
    Pass
  }

  /** The algorithm names the algorithms check announces (printing them); it compares them with nothing. */
  const AnnouncedAlgorithms: seq<string> := ["AES-GCM", "SHA-256", "RSA-2048", "ECDSA-P256"]

  /**
    The algorithms check: it announces each of `AnnouncedAlgorithms` and
    succeeds in every driver state, never reading the certificate's own
    algorithm list.
   */
  function AlgorithmsCheck(a: Automation): (r: CheckResult)
    ensures r.Pass?
  {
    Pass
  }

  /** Whether writing a file succeeded, or the message of the exception it raised. */
  datatype WriteOutcome = Written | WriteFailed(error: string)

  /** A name/value pair in the SBOM component's `properties`. */
  datatype Property = Property(name: string, value: string)

  datatype Tool = Tool(vendor: string, name: string, version: string)

  datatype Component = Component(
    kind: string, name: string, version: string, purl: string, properties: seq<Property>)

  /** The CycloneDX-shaped document the SBOM check writes. */
  datatype SbomDocument = SbomDocument(
    bomFormat: string, specVersion: string, version: int,
    timestamp: string, tools: seq<Tool>, component: Component)

  /** The certificate number the SBOM and the report carry, as a literal. */
  const CertificateLiteral: string := "4985"

  /**
    The SBOM content.  Only the UTC timestamp varies; nothing in it comes from
    the certificate record.
   */
  function GenerateSbom(timestamp: string): (doc: SbomDocument)
    ensures doc.bomFormat == "CycloneDX" && doc.specVersion == "1.4"
    ensures doc.timestamp == timestamp
    ensures doc.component.kind == "library" && doc.component.purl == "pkg:conan/openssl@4.0.0"
    ensures PropertyValue(doc.component.properties, "fips:enabled") == Some("true")
    ensures PropertyValue(doc.component.properties, "fips:certificate") == Some(CertificateLiteral)
  {
    SbomDocument(
      "CycloneDX", "1.4", 1, timestamp,
      [Tool("OpenSSL", "Conan Package Generator", "1.0.0")],
      Component("library", "openssl", "4.0.0", "pkg:conan/openssl@4.0.0",
                [Property("fips:enabled", "true"), Property("fips:certificate", CertificateLiteral)]))
  }

  /** The value of the first property called `name`, as a reader of the document finds it. */
  function PropertyValue(props: seq<Property>, name: string): (r: Option<string>)
    ensures r.Some? ==> exists i :: 0 <= i < |props| && props[i] == Property(name, r.value)
    ensures r.None? <==> forall i :: 0 <= i < |props| ==> props[i].name != name
  {
    if |props| == 0 then None
    else if props[0].name == name then Some(props[0].value)
    else
      var r := PropertyValue(props[1..], name);
      if r.Some? then
        ghost var i :| 0 <= i < |props[1..]| && props[1..][i] == Property(name, r.value);
        assert props[i + 1] == Property(name, r.value);
        r
      else
        assert forall i :: 1 <= i < |props| ==> props[i] == props[1..][i - 1];
        r
  }

  /**
    Whatever its timestamp, the SBOM names one library component with FIPS
    enabled and certificate "4985", and nothing else in the document changes.
   */
  lemma SbomIsFixed(t1: string, t2: string)
    ensures GenerateSbom(t1).component == GenerateSbom(t2).component
    ensures GenerateSbom(t1).(timestamp := t2) == GenerateSbom(t2)
    ensures GenerateSbom(t1).timestamp == t1
    ensures GenerateSbom(t1).component.kind == "library"
    ensures PropertyValue(GenerateSbom(t1).component.properties, "fips:enabled") == Some("true")
    ensures PropertyValue(GenerateSbom(t1).component.properties, "fips:certificate") == Some("4985")
  {
  }

  /** The SBOM check: generating always succeeds, so the outcome is the write's. */
  function SbomCheck(write: WriteOutcome): (r: CheckResult)
    ensures r.Pass? <==> write.Written?
    ensures write.WriteFailed? ==> r.msg == write.error
  {
    match write
    case Written => Pass
    case WriteFailed(e) => Fail(e)
  }

  /** The demo driver: its certificate validator and the FIPS-mode flag. */
  datatype Automation = Automation(validator: Validator, fipsEnabled: bool)

  function NewAutomation(source: CertSource): Automation {
    Automation(NewValidator(source), false)
  }

  /**
    Turning FIPS mode on only raises the flag (the environment variables it
    sets are not modelled); it never fails and leaves the validator alone.
   */
  function EnableFipsMode(a: Automation): (r: Automation)
    ensures r.fipsEnabled
    ensures r.validator == a.validator
  {
    a.(fipsEnabled := true)
  }

  /** A compliance run's new driver state and its result entries, in insertion order. */
  datatype ComplianceRun = ComplianceRun(automation: Automation, results: seq<Entry>)

  /** Each entry names a known check and holds "PASS" or "FAIL: " plus a message. */
  predicate WellFormedEntry(e: Entry) {
    && e.check in CheckNames
    && ParseOutcome(e.value).Some?
  }

  /**
    `validate_fips_compliance`: run the certificate, module, algorithms and
    SBOM checks in that order, recording each outcome under its name.
   */
  function ValidateCompliance(a: Automation, now: Instant, sbomWrite: WriteOutcome): (r: ComplianceRun)
    ensures |r.results| == |CheckNames|
    ensures forall i :: 0 <= i < |r.results| ==> r.results[i].check == CheckNames[i]
    ensures forall i :: 0 <= i < |r.results| ==> WellFormedEntry(r.results[i])
    ensures ParseOutcome(r.results[0].value) == Some(ValidateCertificate(a.validator, now).value)
    ensures r.results[1].value == PassText && r.results[2].value == PassText
    ensures ParseOutcome(r.results[3].value) == Some(SbomCheck(sbomWrite))
    ensures r.automation == a.(validator := ValidateCertificate(a.validator, now).validator)
  {
    var cert := ValidateCertificate(a.validator, now);
    var results := [
      Render("certificate", cert.value),
      Render("module", ModuleCheck(a)),
      Render("algorithms", AlgorithmsCheck(a)),
      Render("sbom", SbomCheck(sbomWrite))];
    RenderRoundTrip(cert.value);
    RenderRoundTrip(ModuleCheck(a));
    RenderRoundTrip(AlgorithmsCheck(a));
    RenderRoundTrip(SbomCheck(sbomWrite));
    ComplianceRun(a.(validator := cert.validator), results)
  }

  /** The result entries as the dictionary they build: check name to rendered outcome. */
  function ResultMap(results: seq<Entry>): (m: map<string, string>)
    ensures m.Keys == set i | 0 <= i < |results| :: results[i].check
  {
    if |results| == 0 then map[]
    else ResultMap(results[..|results| - 1])[results[|results| - 1].check := results[|results| - 1].value]
  }

  /** With distinct check names, every entry can be looked up under its own name. */
  lemma {:induction false} ResultMapLookup(results: seq<Entry>)
    requires forall i, j :: 0 <= i < j < |results| ==> results[i].check != results[j].check
    ensures forall i :: 0 <= i < |results| ==> ResultMap(results)[results[i].check] == results[i].value
  {
    if |results| > 0 {
      var init := results[..|results| - 1];
      ResultMapLookup(init);
      forall i | 0 <= i < |results|
        ensures ResultMap(results)[results[i].check] == results[i].value
      {
        if i < |results| - 1 {
          assert init[i] == results[i];
        }
      }
    }
  }

  /**
    The result map has exactly the four check names as keys, each mapped to
    its own entry.
   */
  lemma ResultMapHasFourKeys(a: Automation, now: Instant, sbomWrite: WriteOutcome)
    ensures var rs := ValidateCompliance(a, now, sbomWrite).results;
            && ResultMap(rs).Keys == set k | k in CheckNames
            && forall i :: 0 <= i < |rs| ==> ResultMap(rs)[rs[i].check] == rs[i].value
  {
    var rs := ValidateCompliance(a, now, sbomWrite).results;
    forall i, j | 0 <= i < j < |rs| ensures rs[i].check != rs[j].check {
      assert |CheckNames[i]| != |CheckNames[j]|;
    }
    ResultMapLookup(rs);
    forall k ensures k in ResultMap(rs).Keys <==> k in CheckNames {
      if k in CheckNames {
        var i :| 0 <= i < |CheckNames| && CheckNames[i] == k;
        assert rs[i].check == k;
      }
    }
  }

  /**
    Failure isolation: the module, algorithms and SBOM entries are the same
    whatever the certificate check meets (another clock, another certificate
    file, a record that fails, a load that raises).
   */
  lemma FailureIsolation(a1: Automation, a2: Automation, now1: Instant, now2: Instant, sbomWrite: WriteOutcome)
    ensures ValidateCompliance(a1, now1, sbomWrite).results[1..] == ValidateCompliance(a2, now2, sbomWrite).results[1..]
  {
  }

  /**
    The module and algorithms entries are "PASS" for every certificate record,
    including one whose algorithm list names algorithms outside the announced
    four.
   */
  lemma ModuleAndAlgorithmsAlwaysPass(c: CertRecord, now: Instant, sbomWrite: WriteOutcome)
    ensures var rs := ValidateCompliance(NewAutomation(Present(c)), now, sbomWrite).results;
            rs[1] == Entry("module", PassText) && rs[2] == Entry("algorithms", PassText)
  {
  }
}
