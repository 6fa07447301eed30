# contact_form.php in Dafny

A model of the contact-form endpoint `contact_form.php`. One POST request
carries a JSON body with `name`, `email` and `message`. The handler
sanitizes the three fields, runs a fixed sequence of checks and answers the
first one that fails with 405 or 400. When every check passes it stores the
submission as a JSON record file and appends a human-readable block to a
summary file. It answers 200 with the stored record when the record write
succeeds, and 500 otherwise.

The project has these modules:

- `Bytes` holds byte strings. PHP's `strlen` counts bytes, so every field is a `seq<byte>`.
- `Utf8` defines well-formed UTF-8 as Table 3-7 of the Unicode Standard does.
- `Sanitize` models `sanitizeInput`, which is PHP `trim`, then `stripslashes`, then `htmlspecialchars($s, ENT_QUOTES, 'UTF-8')`. It also holds the partners used to state round trips:
  - `AddSlashes` is PHP's `addslashes`, the documented inverse of `stripslashes`.
  - `UnescapeHtml` is a reference decoder of the five entities.
  - `HtmlSafe` says that no raw `<`, `>`, `"` or `'` is left and that every `&` starts an entity.
- `Submission` holds the stored record, the record's file name and the summary block built by `sprintf`.
- `Handler` holds the request, the environment, the ordered checks (`Decide`), the response and writes that follow them (`Respond`), and the whole request (`Handle`). A reference definition of a short-circuit pipeline (`FirstFailure` over `ValidationOrder`) states the error precedence.
- `Scenarios` works through concrete families of inputs: a markup character as a name, a padded `0`, and a lone non-ASCII byte.

The handler reads these from its surroundings, so the model takes them as inputs:

- the three `date()` renderings;
- the `uniqid()` token;
- `REMOTE_ADDR` and `HTTP_USER_AGENT`;
- whether the record write returned a truthy value;
- what the summary append returned.

`FILTER_VALIDATE_EMAIL` is the parameter `isEmail: Bytes -> bool`.

The error messages speak of "characters", but the length checks use
`strlen` on the sanitized field. That is a count of bytes after escaping, and
the model counts the same way. `Scenarios.MarkupNameGrows` shows the effect:
a one-character name `&` is 5 bytes long once escaped, so it passes the
name check.

## Model

| member | source | states |
|---|---|---|
| `Sanitize.TrimStart` | contact_form.php:15 | the forward scan of `trim` stops at the first byte that is not space, tab, LF, CR, NUL or VT, and every byte it passes is one of them |
| `Sanitize.TrimEnd` | contact_form.php:15 | the backward scan stops after the last non-trimmable byte and never crosses the start of the kept part |
| `Sanitize.Trim` | contact_form.php:15 | the result is the slice of the input after its leading and before its trailing trimmable bytes: everything outside it is trimmable and neither of its ends is |
| `Sanitize.TrimmedSliceUnique` | contact_form.php:15 | an input has only one trimmed slice, so the description above fixes the result of `trim` |
| `Sanitize.TrimIsTrimmedSlice` | contact_form.php:15 | `trim` returns exactly the slice whose outside is all trimmable bytes and whose edges are not |
| `Sanitize.TrimPadded` | contact_form.php:15 | padding of trimmable bytes around a core with non-trimmable edges is removed and the core kept intact |
| `Sanitize.TrimKeepsUnpadded` | contact_form.php:15 | an input that neither starts nor ends with a trimmable byte is returned unchanged, whatever spaces it holds inside |
| `Sanitize.TrimIdempotent` | contact_form.php:15 | trimming twice is the same as trimming once |
| `Sanitize.StripSlashes` | contact_form.php:16 | `stripslashes` never lengthens its input; the four rule lemmas below fix its result on every input |
| `Sanitize.StripSlashesPlainRun` | contact_form.php:16 | a run of bytes without a backslash is copied as is and the rest handled on its own |
| `Sanitize.StripSlashesEscapedByte` | contact_form.php:16 | a backslash before any byte other than `0` is dropped and that byte kept, so `C:\dir` becomes `C:dir` and `\\` becomes `\` |
| `Sanitize.StripSlashesEscapedZero` | contact_form.php:16 | a backslash followed by `0` becomes a NUL byte |
| `Sanitize.StripSlashesTrailingBackslash` | contact_form.php:16 | a lone backslash at the end of the input is dropped |
| `Sanitize.StripSlashesInvertsAddSlashes` | contact_form.php:16 | `stripslashes` undoes `addslashes` for every byte string |
| `Sanitize.StripSlashesWithoutBackslash` | contact_form.php:16 | a string without a backslash comes through `stripslashes` unchanged |
| `Sanitize.StripSlashesKeepsWellFormed` | contact_form.php:16 | `stripslashes` maps well-formed UTF-8 to well-formed UTF-8 |
| `Sanitize.EscapeByte` | contact_form.php:17 | a byte is left alone exactly when it is not one of the five markup bytes; a markup byte becomes a 4 to 6 byte ASCII entity |
| `Sanitize.EscapeHtml` | contact_form.php:17 | the output is between 1 and 6 times as long as the input, and equally long exactly when the input has no markup byte |
| `Sanitize.EscapeHtmlSafe` | contact_form.php:17 | whatever the input, the escaped output has no raw `<`, `>`, `"`, `'`, and every `&` begins `&amp;`, `&quot;`, `&#039;`, `&lt;` or `&gt;` |
| `Sanitize.UnescapeInvertsEscape` | contact_form.php:17 | decoding the escaped output gives the input back |
| `Sanitize.EscapeHtmlInjective` | contact_form.php:17 | two different inputs never escape to the same output |
| `Sanitize.EscapeInvertsUnescapeOnSafe` | contact_form.php:17 | every safe string is the escaped form of its decoding, so the safe strings are exactly the outputs of the escaping |
| `Sanitize.EscapeHtmlKeepsWellFormed` | contact_form.php:17 | escaping maps well-formed UTF-8 to well-formed UTF-8 |
| `Sanitize.HtmlSpecialChars` | contact_form.php:17 | the output is safe and well-formed; on well-formed input it decodes back to the input, and on ill-formed input it is empty |
| `Sanitize.SanitizeInput` | contact_form.php:14-19 | the sanitized field is HTML-safe and well-formed UTF-8, and for well-formed input it decodes to the trimmed, unslashed input |
| `Sanitize.PrepareKeepsWellFormed` | contact_form.php:15-17 | `trim` followed by `stripslashes` keeps well-formed UTF-8 well-formed, so only ill-formed input reaches the empty-string path of `htmlspecialchars` |
| `Sanitize.SanitizeWellFormed` | contact_form.php:14-19 | on well-formed input the failure path of `htmlspecialchars` is never taken: the result is the escaping of `stripslashes(trim(data))` |
| `Sanitize.SanitizePrintable` | contact_form.php:14-19 | on printable ASCII without backslashes whose first and last bytes are not spaces (interior spaces allowed) `sanitizeInput` only escapes |
| `Sanitize.SanitizePlainText` | contact_form.php:14-19 | printable ASCII with no markup and no backslash whose first and last bytes are not spaces, such as a sentence, comes out unchanged |
| `Sanitize.SanitizeIllFormed` | contact_form.php:17 | when trimming and unslashing leave ill-formed UTF-8, the field sanitizes to the empty string |
| `Sanitize.SanitizeSeesTrimmed` | contact_form.php:14-15 | sanitizing the trimmed input gives the same result as sanitizing the input |
| `Handler.ReadFields` | contact_form.php:38-47 | fields are produced exactly when `name`, `email` and `message` are all set, they are the sanitized posted strings, and each is HTML-safe and well-formed UTF-8 |
| `Handler.ReadFieldsIgnoresOtherKeys` | contact_form.php:38-47 | keys other than `name`, `email` and `message` never change what is read, whatever their values |
| `Handler.NullReadsAsAbsent` | contact_form.php:38 | a JSON `null` under a key reads exactly like the key being absent |
| `Handler.EmptyFieldsAreShort` | contact_form.php:50-72 | PHP `empty()` on a string holds only of `""` and `"0"`, so every empty name or message would also fail its length check; of one-byte strings exactly `"0"` is empty |
| `Handler.Decide` | contact_form.php:27-72 | an accepted request has all three fields set and passing every check (non-empty, valid email, name 2..100 bytes, message 10..2000 bytes); the answer is 405 exactly when the method is not POST |
| `Handler.FirstFailure` | contact_form.php:27-72 | the reference pipeline reports nothing exactly when no check fails, and otherwise reports a check of the list that fails |
| `Handler.FirstFailureAt` | contact_form.php:27-72 | a failing check whose predecessors all pass is the one the pipeline reports |
| `Handler.FirstFailureIsEarliest` | contact_form.php:27-72 | with distinct checks, every check before the reported one passes |
| `Handler.DecideIsFirstFailure` | contact_form.php:27-72 | the handler's checks are the short-circuit pipeline over the order method, missing, empty, email, name length, message length |
| `Handler.DecidePrecedence` | contact_form.php:38-72 | the request is turned down for the check at position k exactly when that check fails and every earlier one passes |
| `Handler.InvalidEmailBeforeLengths` | contact_form.php:56-66 | with non-empty fields a bad email is reported whatever the lengths of name and message |
| `Handler.NameLengthDecides` | contact_form.php:62-66 | after the earlier checks pass, the name is rejected exactly when its sanitized byte length is below 2 or above 100 |
| `Handler.MessageLengthDecides` | contact_form.php:68-72 | after the earlier checks pass, the message is rejected exactly when its sanitized byte length is below 10 or above 2000, and accepted otherwise |
| `Handler.ZeroCountsAsEmpty` | contact_form.php:50-54 | a POSTed field equal to `"0"` is rejected as empty, whatever the other fields hold |
| `Handler.StatusCode` | contact_form.php:27-113 | a rejection answers 405 exactly for a wrong method, 500 exactly for a failed write, and 400 for every failed field check |
| `Handler.ReasonIdentifiesRejection` | contact_form.php:27-113 | each rejection has its own message, so two rejections give the same message only when they are the same |
| `Handler.NewSubmission` | contact_form.php:75-84 | the record holds the sanitized name, email and message and status `new` |
| `Handler.Respond` | contact_form.php:74-114 | a record write is attempted exactly when the checks pass; the answer is 200 exactly when they pass and the write succeeds; the summary block is appended, to the summary file and never to the record's path, exactly on 200; success, 200 and returned data go together |
| `Handler.Handle` | contact_form.php:27-114 | every answer is 200, 400, 405 or 500, and success is reported exactly on 200 |
| `Handler.StoredRecordValid` | contact_form.php:50-84 | every record written passed all the checks, holds only HTML-safe fields, and has status `new` |
| `Handler.NonPostRejected` | contact_form.php:27-31 | any method but POST gets 405 "Method not allowed" and nothing is written |
| `Handler.MissingFieldRejected` | contact_form.php:38-42 | a POST lacking `name`, `email` or `message`, or holding null for one, or not decoding to an object, gets 400 "Missing required fields" and nothing is written |
| `Handler.HandleReportsFirstFailure` | contact_form.php:27-72 | the first failing check decides the whole outcome: its status, its reason and no write |
| `Handler.ZeroFieldRejected` | contact_form.php:45-54 | a field that sanitizes to `"0"` gets 400 "All fields are required" |
| `Handler.AcceptedSubmission` | contact_form.php:45-114 | an accepted request's fields are exactly the sanitized inputs; the record with those fields and status `new` is written to the name built from stamp and unique id; a successful write answers 200 with the record and appends the summary block of date, name, email, address and message, a failed one answers 500 "Failed to save submission" and appends nothing |
| `Handler.SummaryResultIgnored` | contact_form.php:102-109 | the result of the summary append never changes the outcome |
| `Handler.DistinctIdsDistinctFiles` | contact_form.php:87 | two accepted requests with different unique ids write different record files |
| `Submission.RecordFileName` | contact_form.php:87 | the record's path is 37 bytes longer than the stamp and the unique id together |
| `Submission.RecordNeverSummary` | contact_form.php:87-92 | no record name equals the summary file's path, so a record write never overwrites the summary |
| `Submission.RecordFileNameInjective` | contact_form.php:87 | with fixed-width stamps, two record paths coincide exactly when both stamps and unique ids do |
| `Submission.SummaryEntry` | contact_form.php:93-101 | the block is 63 bytes longer than its five fields, opens with `[` and ends with a blank line; `SummaryEntryLayout` places every piece |
| `Bytes.Repeat` | contact_form.php:100 | `str_repeat` of one byte gives exactly `n` copies of it |
| `Submission.SummaryEntryLayout` | contact_form.php:93-101 | the summary block is `[date] name (email) - ip`, a newline, the message, a newline, 50 dashes and two newlines, with each piece at its offset; it is 63 bytes longer than its fields |
| `Scenarios.MarkupNameGrows` | contact_form.php:45-66 | a one-byte markup name becomes a 4 to 6 byte entity and passes the 2..100 byte name check; `&` becomes `&amp;` |
| `Scenarios.PaddedZeroIsEmpty` | contact_form.php:45-50 | a `0` padded with whitespace sanitizes to `"0"`, which counts as empty |
| `Scenarios.LoneHighByteIsEmpty` | contact_form.php:17 | a single non-ASCII byte is ill-formed UTF-8 and sanitizes to the empty string |

## Left out

- Header emission, `http_response_code` and `echo` (lines 2-5 and every response) are not modelled. The response is a datatype holding the status, the success flag, the message and the optional record.
- Creating the data directory (lines 9-11) is filesystem I/O and is not modelled.
- `json_decode` is not modelled (lines 34-35). The body is an optional map from keys to optional byte strings, where `null` is `None`. A body that is not a JSON object is `None`. Non-string JSON values (numbers, booleans, arrays) are not modelled.
- `json_encode` of the record is not modelled. A write of zero bytes, for example when the encoding fails, is falsy in PHP; it is part of the `recordWritten` input.
- `date()`, `uniqid()`, `REMOTE_ADDR` and `HTTP_USER_AGENT` are opaque inputs (lines 76-79 and 87). A request without a user agent, which PHP reads as null with a notice, is not modelled.
- `FILTER_VALIDATE_EMAIL` (line 23) is the uninterpreted predicate `isEmail`, because its grammar lives inside PHP.
- `file_put_contents` with `FILE_APPEND | LOCK_EX` is abstracted:
  - its success is the `recordWritten` flag;
  - the result of the summary append is the `summaryAppended` input, which nothing reads;
  - the locking exists for concurrency and is not modelled.
- `Sanitize.StripSlashes`: its own contract only bounds the length. What it computes on each kind of input is stated by the rule lemmas `StripSlashesPlainRun`, `StripSlashesEscapedByte`, `StripSlashesEscapedZero` and `StripSlashesTrailingBackslash`. The `addslashes` round trip constrains it only on the output of `addslashes`.
- `Handler.Handle`: its own contract states only the status set and that success goes with 200. The exact outcome of each path is stated by `NonPostRejected`, `MissingFieldRejected`, `HandleReportsFirstFailure`, `ZeroFieldRejected`, `AcceptedSubmission` and `StoredRecordValid`.
- `Sanitize.HtmlSpecialChars`: it models the ill-formed UTF-8 path, which returns the empty string, rather than assuming valid input. `SanitizeWellFormed` shows that this path is never taken for well-formed input, which includes every string `json_decode` produces.
- `Sanitize.HtmlSpecialChars`: it covers only the five ENT_QUOTES entities of the default HTML 4.01 table. Other document types and flags are not modelled.
