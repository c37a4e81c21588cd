/**
  The demo's `main`: summarise the certificate, switch FIPS mode on, run the
  compliance checks, fold the result map into an overall status, write the
  compliance report and choose the exit code.

  The clock, the certificate file, and the outcomes of writing the SBOM and
  the report are inputs (`Environment`).  Printing is not modelled.
 */
module Demo {
  import opened Results
  import opened Clock
  import opened Certificate
  import opened Compliance

  /** Everything a run takes from the outside world. */
  datatype Environment = Environment(
    source: CertSource,
    now: Instant,
    sbomWrite: WriteOutcome,
    reportTimestamp: string,
    reportWrite: WriteOutcome)

  const CompliantText: string := "COMPLIANT"
  const NonCompliantText: string := "NON-COMPLIANT"

  /** The compliance report `main` writes. */
  datatype ComplianceReport = ComplianceReport(
    timestamp: string,
    certificateNumber: string,
    validationResults: seq<Entry>,
    overallStatus: string)

  /** How a run of `main` ends. */
  datatype RunResult =
    | StoppedEarly(error: string)                       // the summary raised; no check ran
    | Crashed(report: ComplianceReport, error: string)  // writing the report raised out of `main`
    | Finished(report: ComplianceReport)

  /** Every entry of the result map reads "PASS". */
  predicate AllPass(results: seq<Entry>) {
    forall i :: 0 <= i < |results| ==> results[i].value == PassText
  }

  /** The loop of `main` over the result map: one entry other than "PASS" clears the flag. */
  method AggregateStatus(results: seq<Entry>) returns (allPassed: bool)
    ensures allPassed <==> AllPass(results)
  {
    allPassed := true;
    var i := 0;
    while i < |results|
      invariant 0 <= i <= |results|
      invariant allPassed <==> forall j :: 0 <= j < i ==> results[j].value == PassText
    {
      if results[i].value != PassText {
        allPassed := false;
      }
      i := i + 1;
    }
  }

  /** The report's `overall_status`: COMPLIANT exactly when every check passed. */
  function OverallStatus(allPassed: bool): (status: string)
    ensures status == CompliantText <==> allPassed
    ensures status == NonCompliantText <==> !allPassed
  {
    if allPassed then CompliantText else NonCompliantText
  }

  /** The driver state after the summary step and after FIPS mode is switched on. */
  function Prepared(source: CertSource): Automation {
    EnableFipsMode(NewAutomation(source).(validator := GetValidationInfo(NewValidator(source)).validator))
  }

  /**
    `main`.  It returns 1 before any check when the summary raises, and a
    report-write failure escapes as an exception, which Python turns into
    exit status 1.  Otherwise the exit code is 0 exactly when every check
    passed.
   */
  method Run(env: Environment) returns (result: RunResult, exitCode: int)
    ensures exitCode == 0 || exitCode == 1
    ensures result.StoppedEarly? <==> GetValidationInfo(NewValidator(env.source)).value.Err?
    ensures result.StoppedEarly? ==> result.error == GetValidationInfo(NewValidator(env.source)).value.error
    ensures !result.StoppedEarly? ==>
              && result.report.timestamp == env.reportTimestamp
              && result.report.certificateNumber == CertificateLiteral
              && result.report.validationResults == ValidateCompliance(Prepared(env.source), env.now, env.sbomWrite).results
              && (result.report.overallStatus == CompliantText <==> AllPass(result.report.validationResults))
              && (result.report.overallStatus == CompliantText || result.report.overallStatus == NonCompliantText)
    ensures result.Crashed? <==> !result.StoppedEarly? && env.reportWrite.WriteFailed?
    ensures result.Crashed? ==> result.error == env.reportWrite.error
    ensures exitCode == 0 <==> result.Finished? && result.report.overallStatus == CompliantText
  {
    var a := NewAutomation(env.source);
    var info := GetValidationInfo(a.validator);
    if info.value.Err? {
      return StoppedEarly(info.value.error), 1;
    }
    a := EnableFipsMode(a.(validator := info.validator));
    var run := ValidateCompliance(a, env.now, env.sbomWrite);
    var allPassed := AggregateStatus(run.results);
    var report := ComplianceReport(env.reportTimestamp, CertificateLiteral, run.results, OverallStatus(allPassed));
    if env.reportWrite.WriteFailed? {
      return Crashed(report, env.reportWrite.error), 1;
    }
    result := Finished(report);
    exitCode := if allPassed then 0 else 1;
  }

  /**
    The sixteen combinations of outcomes collapse: the entries all read "PASS"
    exactly when each of the four checks passed, which is exactly when the
    certificate check passed and the SBOM was written.
   */
  lemma AllPassIffEveryCheckPasses(a: Automation, now: Instant, sbomWrite: WriteOutcome)
    ensures var rs := ValidateCompliance(a, now, sbomWrite).results;
            AllPass(rs) <==> forall i :: 0 <= i < |rs| ==> ParseOutcome(rs[i].value) == Some(Pass)
    ensures AllPass(ValidateCompliance(a, now, sbomWrite).results) <==>
              ValidateCertificate(a.validator, now).value.Pass? && sbomWrite.Written?
  {
    var rs := ValidateCompliance(a, now, sbomWrite).results;
    if ValidateCertificate(a.validator, now).value.Pass? && sbomWrite.Written? {
      assert forall i :: 0 <= i < |rs| ==> ParseOutcome(rs[i].value) == Some(Pass);
    } else if !ValidateCertificate(a.validator, now).value.Pass? {
      assert ParseOutcome(rs[0].value) != Some(Pass);
    } else {
      assert ParseOutcome(rs[3].value) != Some(Pass);
    }
  }

  /**
    The checks work on the record the summary step loaded: the certificate
    check of `main` reports what a fresh validator reports on the same file.
   */
  lemma ChecksSeeSummaryRecord(source: CertSource, now: Instant)
    ensures Effective(Prepared(source).validator) == Load(source)
    ensures ValidateCertificate(Prepared(source).validator, now).value ==
              ValidateCertificate(NewValidator(source), now).value
  {
    LoadIsStable(NewValidator(source));
  }

  /**
    With no certificate file and the SBOM written, the run is compliant
    exactly while the built-in expiry (midnight starting 2028-01-15) is not
    before now; once it is, only the certificate entry fails, with the expiry
    message.
   */
  lemma FallbackScenario(now: Instant)
    ensures GetValidationInfo(NewValidator(Missing)).value.Ok?
    ensures var rs := ValidateCompliance(Prepared(Missing), now, Written).results;
            AllPass(rs) <==> !Before(Midnight(Date(2028, 1, 15)), now)
    ensures var rs := ValidateCompliance(Prepared(Missing), now, Written).results;
            Before(Midnight(Date(2028, 1, 15)), now) ==>
              && rs[0].value == FailPrefix + ExpiredMessage
              && rs[1].value == PassText && rs[2].value == PassText && rs[3].value == PassText
  {
    MissingFileUsesFallback(now);
    ChecksSeeSummaryRecord(Missing, now);
    AllPassIffEveryCheckPasses(Prepared(Missing), now, Written);
  }
}
