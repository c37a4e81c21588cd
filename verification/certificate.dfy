/**
  The certificate validator of the compliance demo: the certificate record, the
  loader with its built-in fallback, the status/expiry validation and the
  seven-field validation summary.

  The file system is an input (`CertSource`): the certificate file is absent,
  cannot be read or parsed (the exception message is given), or holds a parsed
  record.  "Now" is an input of the validation.
 */
module Certificate {
  import opened Results
  import opened Clock

  /** Exception messages raised by the validator, as `str(e)` renders them. */
  const NotValidMessage: string := "FIPS certificate #4985 is not valid"
  const ExpiredMessage: string := "FIPS certificate #4985 has expired"
  const MixedComparisonMessage: string := "can't compare offset-naive and offset-aware datetimes"

  /** `str(KeyError(key))`: the key in single quotes. */
  function KeyErrorMessage(key: string): string {
    "'" + key + "'"
  }

  /** An `expiry_date` value: its text as stored, and what `fromisoformat` makes of it. */
  datatype DateField = DateField(text: string, parsed: Result<ParsedDate>)

  /**
    A certificate document, one optional field per key the engine knows of.
    `otherKeys` counts keys outside these ten; it matters only for whether the
    document is empty.
   */
  datatype CertRecord = CertRecord(
    certificateNumber: Option<string>,
    validationDate: Option<string>,
    expiryDate: Option<DateField>,
    status: Option<string>,
    moduleName: Option<string>,
    moduleVersion: Option<string>,
    securityLevel: Option<string>,
    algorithms: Option<seq<string>>,
    vendor: Option<string>,
    validationLab: Option<string>,
    otherKeys: nat)
  {
    /** An empty JSON object, which Python treats as "no data loaded". */
    predicate IsEmpty() {
      && certificateNumber.None? && validationDate.None? && expiryDate.None?
      && status.None? && moduleName.None? && moduleVersion.None?
      && securityLevel.None? && algorithms.None? && vendor.None?
      && validationLab.None? && otherKeys == 0
    }
  }

  /** What the file system holds at the certificate path. */
  datatype CertSource =
    | Missing
    | Unreadable(error: string)
    | Present(record: CertRecord)

  /** The built-in record used when the certificate file does not exist. */
  const Fallback: CertRecord := CertRecord(
    Some("4985"),
    Some("2023-01-15"),
    Some(DateField("2028-01-15", Ok(DateOnly(Date(2028, 1, 15))))),
    Some("valid"),
    Some("OpenSSL FIPS Provider"),
    Some("3.0.8"),
    Some("Level 1"),
    Some(["AES-GCM", "SHA-256", "RSA-2048", "ECDSA-P256"]),
    Some("OpenSSL Software Foundation"),
    Some("NIST Cryptographic Module Validation Program"),
    0)

  /** Reads the certificate, or falls back to the built-in record when the file is absent. */
  function Load(src: CertSource): (r: Result<CertRecord>)
    ensures src.Missing? ==> r == Ok(Fallback)
    ensures r.Err? <==> src.Unreadable?
    ensures src.Present? ==> r == Ok(src.record)
  {
    match src
    case Missing => Ok(Fallback)
    case Unreadable(e) => Err(e)
    case Present(c) => Ok(c)
  }

  /** The validator object: where it reads from, and the data loaded so far (`None` before any load). */
  datatype Validator = Validator(source: CertSource, data: Option<CertRecord>)

  function NewValidator(source: CertSource): Validator {
    Validator(source, None)
  }

  /** `not self.cert_data`: nothing loaded yet, or an empty document loaded. */
  predicate NeedsLoad(v: Validator) {
    v.data.None? || v.data.value.IsEmpty()
  }

  /** The record an operation on `v` works on, or the exception loading it raises. */
  function Effective(v: Validator): Result<CertRecord> {
    if NeedsLoad(v) then Load(v.source) else Ok(v.data.value)
  }

  /** A validator operation's new state and its value. */
  datatype Step<+T> = Step(validator: Validator, value: T)

  /** The lazy load done at the start of `validate_certificate` and `get_validation_info`. */
  function EnsureLoaded(v: Validator): (r: Step<Result<CertRecord>>)
    ensures r.value == Effective(v)
    ensures r.validator.source == v.source
    ensures r.value.Ok? ==> r.validator.data == Some(r.value.value)
    ensures r.value.Err? ==> r.validator == v
    ensures !NeedsLoad(v) ==> r.validator == v
  {
    if NeedsLoad(v) then
      match Load(v.source)
      case Ok(c) => Step(Validator(v.source, Some(c)), Ok(c))
      case Err(e) => Step(v, Err(e))
    else
      Step(v, Ok(v.data.value))
  }

  /** The expiry check on a record whose status is valid. */
  function CheckExpiry(c: CertRecord, now: Instant): (r: CheckResult)
    ensures c.expiryDate.None? ==> r == Fail(KeyErrorMessage("expiry_date"))
    ensures r.Pass? <==>
              && c.expiryDate.Some?
              && c.expiryDate.value.parsed.Ok?
              && !c.expiryDate.value.parsed.value.Aware?
              && !Before(c.expiryDate.value.parsed.value.AsNaive(), now)
  {
    match c.expiryDate
    case None => Fail(KeyErrorMessage("expiry_date"))
    case Some(field) =>
      match field.parsed
      case Err(e) => Fail(e)
      case Ok(p) =>
        if p.Aware? then Fail(MixedComparisonMessage)
        else if Before(p.AsNaive(), now) then Fail(ExpiredMessage)
        else Pass
  }

  /** Status first, then expiry, on an already loaded record. */
  function CheckRecord(c: CertRecord, now: Instant): (r: CheckResult)
    ensures c.status != Some("valid") ==> r == Fail(NotValidMessage)
    ensures c.status == Some("valid") ==> r == CheckExpiry(c, now)
  {
    if c.status != Some("valid") then Fail(NotValidMessage) else CheckExpiry(c, now)
  }

  /**
    `validate_certificate`: load lazily, then require status "valid", then
    require the expiry not to lie strictly before `now`.  A raised exception
    is the `Fail` outcome carrying its message.
   */
  function ValidateCertificate(v: Validator, now: Instant): (r: Step<CheckResult>)
    ensures r.validator == EnsureLoaded(v).validator
    ensures Effective(v).Err? ==> r.value == Fail(Effective(v).error)
    ensures Effective(v).Ok? && Effective(v).value.status != Some("valid") ==>
              r.value == Fail(NotValidMessage)
    ensures Effective(v).Ok? && Effective(v).value.status == Some("valid") ==>
              r.value == CheckExpiry(Effective(v).value, now)
    ensures r.value.Pass? ==> Effective(v).Ok? && Effective(v).value.status == Some("valid")
  {
    var s := EnsureLoaded(v);
    match s.value
    case Err(e) => Step(s.validator, Fail(e))
    case Ok(c) => Step(s.validator, CheckRecord(c, now))
  }

  /** The keys of the summary `get_validation_info` returns, in the order it reads them. */
  const InfoKeys: seq<string> := [
    "certificate_number", "module_name", "module_version", "security_level",
    "validation_date", "expiry_date", "status"]

  /** `cert_data[key]` for the string-valued keys of the summary. */
  function Field(c: CertRecord, key: string): Option<string> {
    match key
    case "certificate_number" => c.certificateNumber
    case "module_name" => c.moduleName
    case "module_version" => c.moduleVersion
    case "security_level" => c.securityLevel
    case "validation_date" => c.validationDate
    case "expiry_date" => if c.expiryDate.Some? then Some(c.expiryDate.value.text) else None
    case "status" => c.status
    case _ => None
  }

  /** The first of `keys` the record lacks: the lookup that raises `KeyError`. */
  function FirstMissing(c: CertRecord, keys: seq<string>): (r: Option<string>)
    ensures r.None? <==> forall k :: k in keys ==> Field(c, k).Some?
    ensures r.Some? ==>
              exists i :: 0 <= i < |keys| && keys[i] == r.value && Field(c, keys[i]).None?
                           && forall j :: 0 <= j < i ==> Field(c, keys[j]).Some?
  {
    if |keys| == 0 then None
    else if Field(c, keys[0]).None? then Some(keys[0])
    else
      var rest := FirstMissing(c, keys[1..]);
      if rest.Some? then
        ghost var i :| 0 <= i < |keys[1..]| && keys[1..][i] == rest.value && Field(c, keys[1..][i]).None?
                       && forall j :: 0 <= j < i ==> Field(c, keys[1..][j]).Some?;
        assert keys[i + 1] == rest.value;
        rest
      else
        assert forall k :: k in keys ==> k == keys[0] || k in keys[1..];
        rest
  }

  /**
    `get_validation_info`: load lazily, then copy the seven summary fields,
    raising `KeyError` on the first one the record lacks.
   */
  function GetValidationInfo(v: Validator): (r: Step<Result<map<string, string>>>)
    ensures r.validator == EnsureLoaded(v).validator
    ensures Effective(v).Err? ==> r.value == Err(Effective(v).error)
    ensures r.value.Ok? ==>
              && Effective(v).Ok?
              && r.value.value.Keys == set k | k in InfoKeys
              && forall k :: k in InfoKeys ==> k in r.value.value && Some(r.value.value[k]) == Field(Effective(v).value, k)
    ensures Effective(v).Ok? ==>
              (r.value.Ok? <==> forall k :: k in InfoKeys ==> Field(Effective(v).value, k).Some?)
    ensures r.value.Err? && Effective(v).Ok? ==>
              exists i :: 0 <= i < |InfoKeys| && r.value.error == KeyErrorMessage(InfoKeys[i])
                          && Field(Effective(v).value, InfoKeys[i]).None?
                          && forall j :: 0 <= j < i ==> Field(Effective(v).value, InfoKeys[j]).Some?
  {
    var s := EnsureLoaded(v);
    match s.value
    case Err(e) => Step(s.validator, Err(e))
    case Ok(c) =>
      match FirstMissing(c, InfoKeys)
      case Some(k) => Step(s.validator, Err(KeyErrorMessage(k)))
      case None => Step(s.validator, Ok(map k | k in InfoKeys :: Field(c, k).value))
  }

  /**
    The lazy load settles the record: once an operation has loaded, every later
    operation on the new state works on the same record (or meets the same
    load error) as the first one did.
   */
  lemma LoadIsStable(v: Validator)
    ensures Effective(EnsureLoaded(v).validator) == Effective(v)
    ensures EnsureLoaded(EnsureLoaded(v).validator) == EnsureLoaded(v)
  {
  }

  /**
    Validating twice with the same clock reports the same outcome, whatever the
    validator had loaded before.
   */
  lemma ValidateIsRepeatable(v: Validator, now: Instant)
    ensures ValidateCertificate(ValidateCertificate(v, now).validator, now) == ValidateCertificate(v, now)
  {
    LoadIsStable(v);
  }

  /**
    A record whose status is not "valid" fails with the status message whatever
    its expiry holds: missing, unparsable, aware, or long past.
   */
  lemma StatusCheckedFirst(c: CertRecord, now: Instant)
    requires c.status != Some("valid")
    ensures forall e :: CheckRecord(c.(expiryDate := e), now) == Fail(NotValidMessage)
  {
  }

  /**
    With status "valid" and a naive or date-only expiry, validation fails
    exactly when the expiry instant lies strictly before `now`, and then with
    the expiry message.  For a date-only expiry on a valid clock that is every
    later day, and every instant of the expiry day after midnight.
   */
  lemma ValidStatusFailsIffExpired(c: CertRecord, now: Instant)
    requires c.status == Some("valid")
    requires c.expiryDate.Some? && c.expiryDate.value.parsed.Ok?
    requires !c.expiryDate.value.parsed.value.Aware?
    ensures CheckRecord(c, now).Fail? <==> Before(c.expiryDate.value.parsed.value.AsNaive(), now)
    ensures CheckRecord(c, now).Fail? ==> CheckRecord(c, now) == Fail(ExpiredMessage)
    ensures ValidInstant(now) && c.expiryDate.value.parsed.value.DateOnly? ==>
              var d := c.expiryDate.value.parsed.value.date;
              (CheckRecord(c, now).Pass? <==> DateBefore(now.date, d) || now == Midnight(d))
  {
    var p := c.expiryDate.value.parsed.value;
    if ValidInstant(now) && p.DateOnly? {
      DateOnlyExpiryBoundary(p.date, now);
      BeforeIsStrictTotalOrder(Midnight(p.date), now, now);
      if DateBefore(now.date, p.date) {
        assert !DateBefore(p.date, now.date);
      }
    }
  }

  /**
    With no certificate file and nothing loaded, validation runs on the
    built-in record (no file is read): it passes exactly until midnight that
    starts 2028-01-15, and fails with the expiry message afterwards.
   */
  lemma MissingFileUsesFallback(now: Instant)
    ensures EnsureLoaded(NewValidator(Missing)).value == Ok(Fallback)
    ensures ValidateCertificate(NewValidator(Missing), now).value ==
              if Before(Midnight(Date(2028, 1, 15)), now) then Fail(ExpiredMessage) else Pass
    ensures GetValidationInfo(NewValidator(Missing)).value.Ok?
  {
    assert forall k :: k in InfoKeys ==> Field(Fallback, k).Some?;
  }

  /**
    A successful summary has exactly seven entries, each the record's own value
    for that key.
   */
  lemma InfoHasSevenFields(v: Validator)
    requires Effective(v).Ok?
    requires forall k :: k in InfoKeys ==> Field(Effective(v).value, k).Some?
    ensures GetValidationInfo(v).value.Ok?
    ensures |GetValidationInfo(v).value.value| == 7
    ensures forall k :: k in GetValidationInfo(v).value.value ==>
              k in InfoKeys && Some(GetValidationInfo(v).value.value[k]) == Field(Effective(v).value, k)
  {
    var m := GetValidationInfo(v).value.value;
    InfoKeysDistinct();
    assert m.Keys == set k | k in InfoKeys;
  }

  /** The seven summary keys are pairwise different. */
  lemma InfoKeysDistinct()
    ensures |set k | k in InfoKeys| == 7
  {
    var s0: set<string> := {};
    var s := s0;
    for i := 0 to |InfoKeys|
      invariant s == set k | k in InfoKeys[..i]
      invariant |s| == i
    {
      assert InfoKeys[i] !in InfoKeys[..i] by {
        forall j | 0 <= j < i ensures InfoKeys[j] != InfoKeys[i] {
          assert |InfoKeys[j]| != |InfoKeys[i]| || InfoKeys[j][0] != InfoKeys[i][0];
        }
      }
      assert InfoKeys[..i + 1] == InfoKeys[..i] + [InfoKeys[i]];
      s := s + {InfoKeys[i]};
    }
    assert InfoKeys[..|InfoKeys|] == InfoKeys;
  }
}
