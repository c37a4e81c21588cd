# FIPS 140-3 compliance demo — Dafny model

This project models the compliance engine of `fips_compliance_demo.py`, the one
piece of the OpenSSL profiles repository that makes decisions. It covers four parts:

- **Certificate loader.** `load_certificate` falls back to a built-in record for
  certificate #4985 when the certificate file does not exist.
- **Certificate validator.** `validate_certificate` checks the status and then
  the expiry. `get_validation_info` returns a seven-field summary.
- **Compliance orchestrator.** `validate_fips_compliance` runs the certificate,
  module, algorithms and SBOM checks in order. It turns each raised exception
  into a `"FAIL: <message>"` entry.
- **`main`.** It folds the result map into `overall_status`, writes the
  compliance report and picks the exit code.

The outside world becomes explicit inputs:

- The clock ("now") is an `Instant`: a naive date-time with microsecond
  resolution, as `datetime.now()` returns it.
- The certificate file is a `CertSource`: it is missing, it raises on read or
  parse (the message is given), or it holds a parsed record.
- Writing the SBOM and writing the report are each a `WriteOutcome`: the write
  succeeds, or it raises with a message.

Raised exceptions are modelled as `Fail(msg)` or `Err(msg)`, carrying the
`str(e)` text Python would format.

Modules, one per file:

- `Results` (results.dfy): option and result wrappers, and the pass/fail outcome
  of a check.
- `Clock` (clock.dfy): dates, naive instants, Python's ordering of naive
  datetimes, and what `fromisoformat` yields. A date-only string is midnight of
  that day. A string with a UTC offset yields an "aware" datetime, which cannot
  be compared with a naive "now".
- `Certificate` (certificate.dfy): the record, the fallback record, the lazy
  load, validation and the summary.
- `Compliance` (compliance.dfy): the four checks, how an outcome is rendered as
  text and read back, the SBOM document, the orchestrator and the result map.
- `Demo` (demo.dfy): `main` as the method `Run`, with the aggregation loop and
  the exit code.

Points of the code's behaviour the model keeps as written:

- The algorithms check compares the algorithms with no allowlist. It announces
  four fixed names and passes, and it never reads the certificate's own
  algorithm list.
- The report and the SBOM carry the literal certificate number `"4985"`,
  whatever the loaded record holds. The validator's error messages also name
  #4985 literally.
- The expiry failure message is `"FIPS certificate #4985 has expired"`, and the
  status failure message is `"FIPS certificate #4985 is not valid"`. A missing
  key raises a `KeyError`, whose text is the quoted key name.
- The code compares a naive parsed expiry with naive local `datetime.now()`. A
  date-only expiry therefore lapses right after the midnight that starts the
  expiry day. An expiry with a UTC offset makes the comparison raise, which
  fails the certificate check.

## Model

| member | source | states |
|---|---|---|
| Certificate.Load | fips_compliance_demo.py:20-46 | an absent file yields the built-in record; only an unreadable file raises; a present file yields its record |
| Certificate.EnsureLoaded | fips_compliance_demo.py:48-51 | the lazy load reloads only when nothing (or an empty document) is loaded, stores what it loaded, and leaves the state untouched when loading raises |
| Certificate.LoadIsStable | fips_compliance_demo.py:64-67 | after one lazy load every later operation sees the same record or the same load error, and a second lazy load changes nothing |
| Certificate.CheckExpiry | fips_compliance_demo.py:57-62 | on a valid-status record the expiry check passes iff the expiry key exists, parses, is naive and is not strictly before now; a missing key fails with `'expiry_date'` |
| Certificate.CheckRecord | fips_compliance_demo.py:53-62 | a status other than "valid" fails with the status message before the expiry is looked at; otherwise the expiry check decides |
| Certificate.ValidateCertificate | fips_compliance_demo.py:48-62 | a load error is the failure message; a non-valid status fails with the status message; a valid status is decided by the expiry; a pass implies status "valid" |
| Certificate.ValidateIsRepeatable | fips_compliance_demo.py:48-62 | validating again with the same clock on the resulting state reports the same outcome |
| Certificate.StatusCheckedFirst | fips_compliance_demo.py:53-60 | a non-valid status fails with the status message whatever the expiry field holds, expired or not |
| Certificate.ValidStatusFailsIffExpired | fips_compliance_demo.py:58-62 | with status "valid", validation fails iff the expiry instant is strictly before now, with the expiry message; a date-only expiry passes on earlier days and exactly at midnight of its day, and fails at every later instant |
| Certificate.MissingFileUsesFallback | fips_compliance_demo.py:22-41 | with no file and nothing loaded, the built-in record is used; it passes until midnight starting 2028-01-15 and fails with the expiry message after; its summary succeeds |
| Certificate.FirstMissing | fips_compliance_demo.py:69-77 | reports no key iff every key is present; otherwise reports a missing key all of whose predecessors are present (the lookup that raises) |
| Certificate.GetValidationInfo | fips_compliance_demo.py:64-77 | succeeds iff all seven keys are present, with exactly those keys, each value copied from the record; otherwise raises the load error or `KeyError` on the first missing key in reading order |
| Certificate.InfoKeysDistinct | fips_compliance_demo.py:69-77 | the seven summary keys are pairwise distinct |
| Certificate.InfoHasSevenFields | fips_compliance_demo.py:64-77 | when the loaded record has all seven summary keys, the summary succeeds with exactly seven entries, each equal to the record's value for its key |
| Clock.Midnight | fips_compliance_demo.py:58-59 | a date-only expiry is the earliest instant of its day: no valid instant of that day is before it |
| Clock.BeforeIsStrictTotalOrder | fips_compliance_demo.py:59 | the comparison of naive datetimes is irreflexive, transitive, asymmetric and total on distinct instants |
| Clock.DateOnlyExpiryBoundary | fips_compliance_demo.py:58-59 | a date-only expiry is before a valid now iff now is on a later day, or on the same day after midnight; at midnight it is not before |
| Compliance.RenderOutcome | fips_compliance_demo.py:99-125 | an entry reads "PASS" iff its check passed; a failure reads "FAIL: " followed by the message |
| Compliance.ParseOutcome | fips_compliance_demo.py:229-234 | reading an entry gives Pass iff the text is "PASS", and a failure only for text that is "FAIL: " plus its message |
| Compliance.RenderRoundTrip | fips_compliance_demo.py:99-125 | reading a rendered entry back gives the original outcome, message included |
| Compliance.ModuleCheck | fips_compliance_demo.py:129-133 | the module integrity check passes in every driver state, whatever certificate is loaded or loadable |
| Compliance.AlgorithmsCheck | fips_compliance_demo.py:135-148 | the algorithms check passes in every driver state; it never consults the certificate's algorithm list |
| Compliance.GenerateSbom | fips_compliance_demo.py:152-182 | the SBOM is a CycloneDX 1.4 document stamped with the given timestamp, naming the library `pkg:conan/openssl@4.0.0`, whose properties read `fips:enabled` = "true" and `fips:certificate` = "4985" |
| Clock.Before | fips_compliance_demo.py:59 | on valid instants, one naive datetime is before another iff it lies earlier on the microsecond time line |
| Demo.OverallStatus | fips_compliance_demo.py:242 | the overall status is COMPLIANT iff every check passed, and NON-COMPLIANT iff some check failed |
| Compliance.SbomCheck | fips_compliance_demo.py:184-190 | the SBOM check passes iff the SBOM file is written; otherwise it fails with the write's message |
| Compliance.PropertyValue | fips_compliance_demo.py:170-179 | a property lookup finds a value only if the list holds that name/value pair, and finds nothing iff no property has the name |
| Compliance.SbomIsFixed | fips_compliance_demo.py:152-182 | the SBOM differs between runs only in its timestamp; the component is a library with `fips:enabled` = "true" and `fips:certificate` = "4985", independent of any certificate data |
| Compliance.EnableFipsMode | fips_compliance_demo.py:84-93 | enabling FIPS mode sets the flag and leaves the certificate validator untouched |
| Compliance.ValidateCompliance | fips_compliance_demo.py:95-127 | the result has exactly four entries named certificate, module, algorithms, sbom in that order, each "PASS" or "FAIL: " plus the check's message; module and algorithms read "PASS" |
| Compliance.ResultMap | fips_compliance_demo.py:97-127 | the dictionary built from the entries has exactly the entries' check names as keys |
| Compliance.ResultMapLookup | fips_compliance_demo.py:97-127 | with distinct names, each entry is found in the dictionary under its own name |
| Compliance.ResultMapHasFourKeys | fips_compliance_demo.py:97-127 | the result map's keys are exactly certificate, module, algorithms and sbom, each mapped to its entry |
| Compliance.FailureIsolation | fips_compliance_demo.py:99-127 | the module, algorithms and sbom entries do not depend on the certificate check's state, clock or outcome |
| Compliance.ModuleAndAlgorithmsAlwaysPass | fips_compliance_demo.py:129-148 | for every certificate record, including one listing other algorithms, the module and algorithms entries are "PASS" |
| Demo.AggregateStatus | fips_compliance_demo.py:228-234 | the loop over the result map ends with the flag set iff every entry reads "PASS" |
| Demo.Run | fips_compliance_demo.py:192-259 | when the summary raises, `main` stops with 1 before any check; the report carries literal "4985" and the results; COMPLIANT iff all entries pass; a failed report write crashes with exit status 1; exit code 0 iff the report is written and COMPLIANT |
| Demo.AllPassIffEveryCheckPasses | fips_compliance_demo.py:228-242 | all entries read "PASS" iff each of the four outcomes is Pass, iff the certificate check passed and the SBOM was written |
| Demo.ChecksSeeSummaryRecord | fips_compliance_demo.py:200-226 | the certificate check in `main` works on the record the summary step loaded, and reports what a fresh validator would |
| Demo.FallbackScenario | fips_compliance_demo.py:22-62 | with no file and the SBOM written, the run is compliant iff the built-in expiry is not before now; once it is, only the certificate entry fails, with the expiry message |

## Left out

- Reading and decoding the certificate JSON is not modelled. The outcome is an
  input: the file is missing, it raises (message given), or it holds a parsed
  object. A top-level JSON value that is not an object is not modelled.
- Non-string JSON values for the string fields are not modelled. The expiry
  field carries its text and the outcome of `datetime.fromisoformat`, so a
  wrongly typed or malformed expiry appears only as a parse failure with its
  message. The internals of ISO date parsing are not modelled.
- Date validity: the per-month day bounds are stated by `Clock.ValidDate`. The
  ordering does not depend on them.
- Serialising the SBOM and the report with `json.dump`, and the file paths
  they go to, are not modelled. Each write is an input that succeeds or raises.
  The report's key order is kept as the sequence of entries.
- The timestamps from `datetime.now()` and `datetime.now(timezone.utc).isoformat()`
  are not modelled. The report timestamp is an input string. The SBOM timestamp
  is the parameter of `GenerateSbom`.
- `print` output is not modelled. The model assumes printing never raises. A
  print that raised inside the module or algorithms check would turn that
  entry into a failure, and the model does not cover this.
- `enable_fips_mode` sets the `OPENSSL_CONF` and `OPENSSL_FIPS` environment
  variables. The model only records the flag, because process environment
  mutation is outside the model. Its failure branch in `main` is unreachable
  under the no-raising-print assumption.
- LoadIsStable and ValidateIsRepeatable assume the certificate file does not
  change during a run. After a failed or empty load, Python re-reads the file
  on the next call. The model's re-read sees the same `CertSource`, so a file
  that appears, disappears or changes between calls is not modelled. `main`
  is unaffected: it stops early unless the summary step stored a non-empty
  record.
- The validator's default certificate path is not modelled. The file system
  at that path is the `CertSource` input.
- No algorithm allowlist check is modelled, because the code performs none.
- The Conan packaging recipes (`conanfile.py`, `fips/conanfile.py`,
  `test_package/conanfile.py`) are not modelled. They only copy files, set
  variables and check paths.
- `scripts/test_deprecated.c` is a compile-time probe with no logic, and is
  not modelled.
- The re-export shims `scripts/openssl_profiles.py` and `scripts/__init__.py`
  are not modelled.
