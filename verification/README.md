# Crash signatures and report fields of the Socorro legacy processor, in Dafny

This project models the pure logic of the legacy crash processor of Socorro
(`socorro/processor/processor.py`):

- **Frame signatures** (`make_signature`). One stack frame becomes one signature
  string. If there is a function name, its spacing is normalised and it is used.
  Otherwise the source file's base name, `#` and the line are used when both are
  known. Otherwise it is `module@instruction`, and failing that `@instruction`.
- **Crash signatures** (`generateSignatureFromList`). A list of frame signatures is
  reduced to the frames that characterise the crash and joined with ` | `. Bare
  addresses (`@0x` and two or more hex digits) are skipped until a "prefix" frame has
  been kept, and kept after that. Prefix frames are allocator and string routines:
  names starting with `@0x0`, `strchr`, `memcpy`, `malloc`, `realloc` or
  `arena_dalloc_small`, or containing `free`. They are kept and the walk goes on.
  The first frame of any other kind is kept and ends the walk.
- **The class regular expressions** (lines 96-101), each written as an explicit
  function or predicate on strings.
- **Report-row derivation** (`insertReportIntoDatabase` up to the insert). This maps
  the decoded JSON metadata of a crash to the fields of a `reports` row, plus the
  error and warning messages recorded on the way.
- **Two-tier storage lookup** (`jsonPathForUuidInJsonDumpStorage`,
  `dumpPathForUuidInJsonDumpStorage`). Standard storage is tried first, then
  deferred storage. If neither holds the job, `UuidNotFoundException` is raised.

Modules: `Wrappers` (Option, Result), `Text` (character classes, decimal digits,
Python 2 `int()` of text), `Patterns` (the class regexes), `Signature`, `Report`,
`Storage`.

Points where the model follows the code rather than a looser reading of it:

- `filename_re` is applied with `search`, and its group must be non-empty. A source
  path that ends with a separator therefore keeps the whole path, as does a path
  without any separator.
- `.*free.*` is applied with `match`, and `.` does not match a newline. So `free` must
  occur before the first newline.
- `fixupSpace` deletes one space before `*`, `&` or `,`. Of a run of spaces, only
  the last one is deleted (`int  *` becomes `int *`).
- The `try` block at lines 560-564 runs its statements in order. The uptime is
  non-zero only when the crash, install *and* startup times all read as numbers.
  When a later statement fails, the report date already taken from the crash time
  stays unless the client `timestamp` replaces it.
- Python 2's `int()` of text ignores whitespace around the text and also between
  a sign and the digits, so `"- 5"` reads as -5 for `CrashTime` or
  `SecondsSinceLastCrash`.
- `int(None)` raises `TypeError`, and so does `fromtimestamp` of text. Neither is
  caught by `except (ValueError, KeyError)`, so the exception escapes the derivation.
- A missing `ProductName`, `Version` or `BuildID` records its error message. Building
  the row tuple then raises `UnboundLocalError` for the first unbound local.

## Model

| member | source | states |
|---|---|---|
| Patterns.FixupSpace | socorro/processor/processor.py:284-285 | deleting spaces before `*`, `&`, `,` changes nothing but spaces: the result is a subsequence of the input with the same non-space characters |
| Patterns.FixupSpaceRemovesAll | socorro/processor/processor.py:97 | when the input has no doubled space, no space is left directly before `*`, `&` or `,` |
| Patterns.FixupSpaceFixedPoint | socorro/processor/processor.py:97 | the fix-up leaves a name unchanged exactly when no space stands before `*`, `&` or `,` |
| Patterns.FixupSpaceLeavesOneOfTwo | socorro/processor/processor.py:97 | of two spaces before `*` only one is removed (`int  *` gives `int *`) |
| Patterns.FixupSpaceByPosition | socorro/processor/processor.py:284-285 | position by position, the fix-up deletes a character exactly when it is a space directly followed by `*`, `&` or `,`, and keeps every other character in order |
| Patterns.FixupSpaceExample | socorro/processor/processor.py:284-285 | `a b *` becomes `a b*`: the space between two letters stays |
| Patterns.FixupComma | socorro/processor/processor.py:287-288 | inserting spaces after commas keeps the input as a subsequence and the non-space characters unchanged |
| Patterns.FixupCommaSpaces | socorro/processor/processor.py:98 | after the comma fix-up every comma is followed by a space, including a comma at the end |
| Patterns.FixupCommaFixedPoint | socorro/processor/processor.py:98 | the comma fix-up leaves a name unchanged exactly when every comma already has a space after it |
| Patterns.FixupCommaIdempotent | socorro/processor/processor.py:287-288 | applying the comma fix-up twice equals applying it once |
| Patterns.FixupCommaByPosition | socorro/processor/processor.py:287-288 | position by position, the fix-up replaces a comma by `, ` exactly when the comma is last or not followed by a space, and keeps every other character in order |
| Patterns.FixupCommaExample | socorro/processor/processor.py:287-288 | `a,b` becomes `a, b`: nothing is added before the comma |
| Patterns.NormaliseFunction | socorro/processor/processor.py:283-289 | the normalised function name differs from the original only in spaces, and every comma in it is followed by a space |
| Patterns.NormaliseFunctionByPosition | socorro/processor/processor.py:283-289 | the normalised name is the position-wise space deletion followed by the position-wise comma spacing |
| Patterns.NormaliseFunctionFixedPoint | socorro/processor/processor.py:284-288 | a name already free of spaces before `*&,` and with spaced commas is returned unchanged |
| Patterns.FilenameSearch | socorro/processor/processor.py:99 | the search matches exactly when the path has a separator and does not end with one; the group is the non-empty, separator-free text after the last separator |
| Patterns.FilenameSearchCaptures | socorro/processor/processor.py:292-294 | for any path `p + sep + name` with a non-empty, separator-free name, the captured group is that name |
| Patterns.ContainsFreeIsPrefix | socorro/processor/processor.py:101 | any signature with `free` before its first newline matches the prefix pattern |
| Patterns.FreeInFirstLineExactly | socorro/processor/processor.py:101 | the `.*free.*` alternative matches at the start exactly when `free` occurs somewhere with no newline before it |
| Patterns.NullAddressMatchesBoth | socorro/processor/processor.py:100-101 | `@0x0a` matches both the address and the prefix pattern; `@0x0` matches only the prefix pattern |
| Patterns.MatchBuildDate | socorro/processor/processor.py:96 | the build-date pattern matches exactly when the text opens with ten digits, and zero-padding the four groups gives those ten digits back |
| Text.IntToStringRoundTrip | socorro/processor/processor.py:561 | Python's `int()` of the decimal text of an integer gives that integer back |
| Text.SpaceAfterSign | socorro/processor/processor.py:561 | `int()` skips whitespace between a sign and the digits: a sign, any whitespace and a run of digits read as the signed value of the digits (`int("- 5") == -5`) |
| Text.BareSignRejected | socorro/processor/processor.py:561 | a sign followed by nothing but whitespace is a `ValueError` |
| Text.TrimLeftDropsWhitespace | socorro/processor/processor.py:561 | the whitespace `int()` ignores at the start is exactly a run of whitespace characters, and the rest of the text is kept |
| Text.TrimRightDropsWhitespace | socorro/processor/processor.py:561 | the whitespace `int()` ignores at the end is exactly a run of whitespace characters, and the rest of the text is kept |
| Text.ParseIntAcceptsExactly | socorro/processor/processor.py:561 | `int()` accepts text exactly when it is optional whitespace, an optional sign with optional whitespace after it, at least one digit, and optional whitespace; the value is the digits' value, negated after `-` |
| Signature.Basename | socorro/processor/processor.py:291-294 | the shown file name is a suffix of the source path; it is the whole path exactly when the path is empty, has no separator or ends with one, and otherwise it is non-empty, free of separators and preceded by one |
| Signature.MakeSignature | socorro/processor/processor.py:280-301 | a frame with a function name gets that name up to spacing, with spaced commas; otherwise a source/line frame gets its file name then `#` and the line; any other frame gets `@` then the instruction at its end |
| Signature.FunctionWins | socorro/processor/processor.py:283-289 | two frames with the same function name get the same signature whatever their module, source, line and instruction, namely the normalised name |
| Signature.FunctionSignatureByPosition | socorro/processor/processor.py:283-289 | a frame with a function name gets that name with each space before `*`, `&` or `,` deleted and then a space put after each comma that lacks one |
| Signature.SourceLineSignature | socorro/processor/processor.py:291-296 | without a function, a source `p + sep + name` with a line gives `name#line` |
| Signature.PlainSourceSignature | socorro/processor/processor.py:291-296 | without a function, a source path with no separator is used whole before `#line` |
| Signature.ModuleSignature | socorro/processor/processor.py:298-299 | without function, and without source or line, a known module gives `module@instruction` |
| Signature.AddressSignature | socorro/processor/processor.py:301 | with no function, module, or source and line, the signature is `@instruction` (`@None` when the instruction is absent) |
| Signature.AsWrittenDiffersOnlyOnSourceLine | socorro/processor/processor.py:292 | the code as written raises `NameError` exactly on frames that reach the source/line branch, and agrees with the corrected signature on all others |
| Signature.AsWrittenCounterexample | socorro/processor/processor.py:292 | a frame with source `c:\src\nsFoo.cpp` and line `42` raises as written, and gets `nsFoo.cpp#42` once corrected |
| Signature.KeptIsSubsequence | socorro/processor/processor.py:305-317 | the frames kept by the walk are an order-preserving subsequence of the input list |
| Signature.KeepEntries | socorro/processor/processor.py:306-316 | the loop, which stops at the first frame that is neither an address nor a prefix frame, keeps exactly the frames the two-state description keeps |
| Signature.GenerateSignatureFromList | socorro/processor/processor.py:305-317 | the function returns the ` | `-join of the frames the state machine keeps, equal to the join of the position-wise description, and `""` for an empty list |
| Signature.KeptMatchesReference | socorro/processor/processor.py:308-316 | the walk keeps exactly the positions at or before the first frame that is neither an address nor a prefix frame, minus the bare addresses that come before any prefix frame |
| Signature.StoppingRule | socorro/processor/processor.py:313-315 | the first frame that is neither an address nor a prefix frame is the last one kept; nothing after it affects the result |
| Signature.NoTerminalKeepsAllRelevant | socorro/processor/processor.py:308-316 | a list of prefix frames only is kept whole |
| Signature.LeadingAddressDropped | socorro/processor/processor.py:309-312 | a leading bare address is dropped, even one that also matches the prefix pattern |
| Signature.ReductionExample | socorro/processor/processor.py:305-317 | `[@0x0a, @0x0, @0xff, foo, bar]` reduces to `@0x0 | @0xff | foo` |
| Report.ToInt | socorro/processor/processor.py:561 | `int()` of a JSON value gives the number itself, 1 or 0 for a boolean, and the value of decimal text; it raises the caught `ValueError` exactly for text that is not a decimal number, and the uncaught `TypeError` exactly for `null`, an array or an object |
| Report.DeriveTimes | socorro/processor/processor.py:556-571 | the uptime is never negative, and a positive uptime means the crash, install and startup times all read as numbers and the uptime is crash minus startup time |
| Report.DeriveBuildDate | socorro/processor/processor.py:572-578 | a build date is found exactly when `str(BuildID)` opens with ten digits whose four groups form a valid calendar date and hour; the zero-padded year, month, day and hour of a found date give those ten digits back |
| Report.DeriveLastCrash | socorro/processor/processor.py:579-582 | the last-crash field is absent exactly when the key is missing or its value does not convert with `int()`, and otherwise holds the converted value |
| Report.DeriveReport | socorro/processor/processor.py:536-583 | a row is produced exactly when the three required keys are present and the time block raises nothing; its email is always absent and its uptime non-negative; the messages start with the missing-key errors, followed only by warnings |
| Report.MessagesInOrder | socorro/processor/processor.py:536-577 | the recorded messages are the missing-key errors, then the report-date warning if the fallback found no timestamp, then the build-date warning if no build date was found, each at most once; when the time block raises only the errors are recorded |
| Report.MissingKeyMessageCount | socorro/processor/processor.py:536-547 | each missing `ProductName`, `Version` or `BuildID` adds exactly one copy of its own error message, and a present key adds none |
| Report.MissingKeyFails | socorro/processor/processor.py:536-583 | with a required key missing, the derivation records messages and then fails on the first unbound local |
| Report.NullCrashTimeRaises | socorro/processor/processor.py:560-565 | a `null` CrashTime raises `TypeError` out of the derivation, after only the missing-key messages |
| Report.UptimeRule | socorro/processor/processor.py:558-564 | the uptime is `max(0, crash - startup)` when the crash, install and startup times all read as numbers, and 0 otherwise |
| Report.InstallAgeRule | socorro/processor/processor.py:558-564 | the install age is crash minus install time once both read as numbers, even when the startup time then fails, and absent otherwise |
| Report.TimeBlockRaisesRule | socorro/processor/processor.py:556-571 | the time block raises exactly when the first read that does not give a number raises `TypeError`, or when it falls back on a client timestamp that is neither a number nor a boolean; the exception names the key it came from |
| Report.ReportDateRule | socorro/processor/processor.py:559-567 | the report date comes from the crash time exactly when it reads as a number and the block either completes or finds no client timestamp; it comes from the client timestamp (its number, or 0/1 for a boolean) only after a fallback; it stays the processing date exactly when neither is usable |
| Report.BuildDateWarningRule | socorro/processor/processor.py:572-583 | once the time block completes, the build-date warning is recorded exactly when no build date is found; a built row holds the derived build date and last-crash interval |
| Report.ReportDateWarningRule | socorro/processor/processor.py:565-571 | the missing-report-date warning appears exactly when the time block fell back and there is no client timestamp |
| Report.BuildDateExample | socorro/processor/processor.py:574 | build id `2008061611` gives the build date 2008-06-16, hour 11 |
| Report.BuildDateRejectsInvalidDay | socorro/processor/processor.py:574-577 | build id `2008023011` (30 February) gives no build date |
| Storage.LookupWithFallback | socorro/processor/processor.py:327-335 | a path is found exactly when standard or deferred storage holds the uuid, from standard storage when it does; otherwise the not-found error carries the uuid in its message |
| Storage.JsonPathForUuid | socorro/processor/processor.py:327-335 | the JSON path is found exactly when either storage holds it |
| Storage.DumpPathForUuid | socorro/processor/processor.py:338-346 | the dump path is found exactly when either storage holds it |
| Storage.StandardShadowsDeferred | socorro/processor/processor.py:328-329 | when standard storage has the job, deferred storage does not affect the answer |
| Storage.DeferredFoundWhenStandardMisses | socorro/processor/processor.py:340-343 | when standard storage lacks the dump, the deferred path is returned, and what else standard storage holds makes no difference |

## Findings

| source | as written | input that shows it | evidently intended | confidence | as-written member | corrected member |
|---|---|---|---|---|---|---|
| socorro/processor/processor.py:292 | the static method calls a bare `filename_re`, a name bound only as the class attribute `Processor.filename_re`, so the source/line branch raises `NameError` | a frame with no function, source `c:\src\nsFoo.cpp` and line `42` | `Processor.filename_re.search(source)`, giving `nsFoo.cpp#42` | high, not executed | Signature.MakeSignatureAsWritten (shown by Signature.AsWrittenCounterexample and Signature.AsWrittenDiffersOnlyOnSourceLine) | Signature.MakeSignature (with Signature.SourceLineSignature) |

## Left out

- Registration and processor-id takeover, `checkin`, `cleanup`, `incomingJobStream`, `start`, `submitJobToThreads`, `processJob`, `moveJobFromLegacyToStandardStorage`, the SIGTERM handler and the thread manager: database I/O, wall-clock time and concurrency.
- `doBreakpadStackDumpAnalysis`: a hook that subclasses override. Its body only raises.
- The `reports` insert and its duplicate handling (lines 584-598): database I/O.
- `limitStringOrNone` and `lookupLimitedStringOrNone` are not part of this model. The row records each call with its value or key and limit, and no truncation is assumed.
- `datetime.fromtimestamp` and the `UTC` class: platform time conversion. The report date is kept as its origin and its seconds. Out-of-range timestamps are not modelled.
- `ooid.dateFromOoid` and `date_processed` are not part of this model. The processing date appears only as the `DateProcessed` origin of the report date.
- JSON numbers with a fraction are not modelled. Neither are `int()` of non-ASCII digits or whitespace, nor the `UnicodeEncodeError` that `str()` raises on a non-ASCII `BuildID`. JSON arrays and objects are kept without their contents.
- Report.TextForPattern: gives no text for an array or object rather than its `repr`. Such a `repr` opens with a bracket, so the build-date pattern fails either way.
- `JsonDumpStorage` is not part of this model. A lookup either yields a path or raises `OSError`/`IOError`, and other exceptions from it are not modelled.
- The mod_python collector and the Django web application: HTTP handling and framework code.
