# Seed validator and sprint scheduler, modelled in Dafny

This project models the two command-line tools of a project-seeding workflow.

- **The seed validator** (`python/validate_seed.py`) checks a JSON seed document. It makes fatal checks in a fixed order:
  - the top level is an object;
  - `org.name` and `org.shortname` are non-blank;
  - `project.title` is non-blank;
  - `repos` is a list of objects with non-blank names;
  - `issues` is a list of objects, each with a non-blank key that is unique once stripped and a non-blank title.

  It stops at the first fatal failure and emits advisory warnings on the way:
  - a `priority`, `estimate` or `size` outside its fixed options;
  - a `work_repo` that names no repo.

  On success it yields a summary: the org name, the project title, the number of distinct repo names and the number of issues.
- **The sprint scheduler** (`python/compute_sprints.py`) reads a start date `MM/DD/YYYY`, a cadence in days and a seed document. It takes the largest positive `sprint` value `n` among the seed's issues and lays out sprints `Sprint 1` .. `Sprint n`. The first starts on the Wednesday on or after the start date, and each later one starts `cadence` days after the previous one. Every sprint is rendered with its start date as an ISO 8601 extended calendar date `YYYY-MM-DD` (section 4.1.2.2 of ISO 8601:2004).

Both tools are modelled as pure functions over an already-parsed JSON value. Reading and parsing a file becomes an `Option<Json>` parameter, where `None` means the file did not open or did not parse. The validator's argument vector stays a parameter of `ValidateSeed.Run`, with the file reader passed in as a function. Fatal errors, warnings, outcomes and exit statuses are datatypes and constants, not printed text.

Files:

| file | module | contents |
|---|---|---|
| `wrappers.dfy` | `Wrappers` | `Option`, `Result` |
| `pytext.dfy` | `PyText` | Python's `str.isspace`, `str.strip()`, `str.isdigit`, `int(text)` and `str(int)` |
| `json.dfy` | `JsonValue` | the JSON value; `dict.get`, truthiness, hashing into a `set`, `str()`/`repr` (the validator's `to_str`) |
| `calendar.dfy` | `Calendar` | proleptic Gregorian day numbers as Python's `date.toordinal` counts them, `weekday`, and `strftime("%Y-%m-%d")` |
| `validate_seed.dfy` | `ValidateSeed` | the validator |
| `compute_sprints.dfy` | `ComputeSprints` | the scheduler |

Modelling choices:

- **JSON objects.** An object is a sequence of members in document order. A name may repeat, as it may in JSON text. `json.load` builds a Python `dict` from the members by assigning them in order: each name is kept once, at the position of its first occurrence, with the value of its last. `JsonValue.DictItems` is that dict. `Get` reads the last binding, which is what the dict holds (`JsonValue.DictItemsLookup`). Numbers are integers.
- **`to_str`.** `JsonValue.ToStr` is Python's `str()` for `None` (read as `""`), booleans, integers and strings. It is Python's `repr` for lists and dicts, and a dict is printed from its `DictItems`, so two objects that load as the same dict print the same (`JsonValue.ToStrOfDict`). The lemma `JsonValue.BlankIff` shows that only `None` and all-whitespace strings are blank after `strip()`. Numbers, booleans, `[]` and `{}` therefore pass the "non-empty" checks. `ValidateSeed.NonBlank` states the check by kind of value, and `ValidateSeed.NonBlankIff` ties it back to `to_str(x).strip()`.
- **Set membership.** Membership in the repo-name `set` goes through `HashKey`, under which `True`/`False` are equal to `1`/`0`, as Python's `==` and `hash` make them. A list or dict cannot be hashed. Python then raises `TypeError` at `repo_names.add(r["name"])` (line 69) or at `wr not in repo_names` (line 102). The model keeps these as the outcomes `UnhashableRepoName` and `UnhashableWorkRepo`, with exit status 1.
- **The validator's stages.** `ValidateSeed.Validate` runs three stages in turn:
  - `HeaderError`: top level, org and project;
  - `ReposStage`: the repos list and its loop;
  - `IssuesStage`: the issues list, its loop and the summary.

  The issue loop is `ScanIssues`. Its declarative partner is `AcceptedPrefix`: every issue so far has the right shape and the stripped keys so far are pairwise distinct. `ScanCorrect` proves that the loop stops exactly at the first issue that breaks the prefix.
- **Dates.** Dates are Python day numbers: day 1 is 0001-01-01 and the last representable day, 9999-12-31, is 3652059. `weekday` is `(d + 6) % 7`, with Monday as 0. `Calendar.FromOrdinal` and `Calendar.ToOrdinal` convert between day numbers and calendar dates.
- **Start dates.** The parser follows `strptime`'s reading of `%m/%d/%Y`:
  - a month or day may have one digit;
  - a day may be padded with a space;
  - the year has exactly four ASCII digits and year 0 is refused;
  - the day must exist in its month.
- **Overflow.** A schedule whose last start would fall after 9999-12-31 is the outcome `DateOverflow`, with exit status 1. Python raises `OverflowError` while computing that start.

Where the program's own documentation and its code differ, or the documentation is silent, the model follows the code:

- The validator's documentation promises only the exit statuses 0 and 3. The code crashes, with status 1, on a list or dict used as a repo name or as a `work_repo`.
- In the scheduler, the `try` of `load_max_sprint` covers only opening and parsing the seed (`python/compute_sprints.py` lines 28-33), which give 0 sprints when they fail. A seed whose top level parses but is not an object crashes at `data.get` (line 35), outside the `try`. `ComputeSprints.LoadMaxSprint` returns `SeedNotObject` for that case.

## Model

| member | source | states |
|---|---|---|
| ValidateSeed.NonBlankIff | python/validate_seed.py:29-30 | a value passes `to_str(x).strip()` exactly when it is neither `None` nor a string of whitespace |
| ValidateSeed.ExitCode | python/validate_seed.py:105-112 | the exit status is 0 exactly on success; a failure exits 1 exactly when it is an uncaught `TypeError`, and 3 otherwise |
| ValidateSeed.HeaderError | python/validate_seed.py:43-58 | the top-level, org and project checks report nothing exactly when all pass, and otherwise report one of their own four errors |
| ValidateSeed.HeaderOrder | python/validate_seed.py:43-58 | each header error is the outcome exactly when its check fails and every earlier check passes: top level, then `org.name`, then `org.shortname`, then `project.title` |
| ValidateSeed.HeaderFailureReported | python/validate_seed.py:43-58 | a failing header check is the validator's outcome, with no warnings |
| ValidateSeed.HeaderPassed | python/validate_seed.py:43-58 | once the header passes, no header error can be reported |
| ValidateSeed.FalsyOrgRejected | python/validate_seed.py:47-50 | a falsy `org` (absent, `null`, `false`, `0`, `""`, `[]`, `{}`) is read as `{}` and fails with `org.name is required` |
| ValidateSeed.CollectRepoNames | python/validate_seed.py:64-69 | the repo loop stops at the first repo that is not an object with a non-blank hashable name, with that repo's 1-based index as a missing name or as the hashing crash; otherwise it yields the set of every repo's raw name |
| ValidateSeed.RepoKeysMembers | python/validate_seed.py:64-69 | a key is in the collected name set exactly when some repo's raw name has that key |
| ValidateSeed.RepoKeysBound | python/validate_seed.py:64-69 | there are never more distinct repo names than repos |
| ValidateSeed.ReposStageSpec | python/validate_seed.py:60-69 | `ReposStage`: the repos checks pass exactly when `repos` is a list (or absent) whose every item passes, and then yield the names of all repos |
| ValidateSeed.ReposFailureReported | python/validate_seed.py:60-69 | a failing repos check is the validator's outcome, with no warnings |
| ValidateSeed.ReposPassed | python/validate_seed.py:71-91 | once the repos pass, only a non-list `issues` or an error about one issue can be reported |
| ValidateSeed.ReposErrorIff | python/validate_seed.py:60-69 | after the header passes, a repos error is the validator's outcome exactly when it is the repos checks' outcome |
| ValidateSeed.ReposListOutcome | python/validate_seed.py:60-63 | a missing `repos` reads as an empty list; `repos must be an array` is reported exactly when `repos` is present but not a list (`null` included) |
| ValidateSeed.RepoRejectedAt | python/validate_seed.py:65-69 | `repos[k] missing name` is reported exactly when repo k is the first bad repo and is not an object with a non-blank name; the crash at repo k happens exactly when repo k is the first bad repo and has a non-blank list or dict name |
| ValidateSeed.OptionWarningsIff | python/validate_seed.py:92-100 | `OptionWarnings`: an option warning is emitted exactly for a field among `priority`, `estimate` and `size` whose value is present and whose `to_str` is outside that field's options, carrying the raw value |
| ValidateSeed.IssueWarningsIff | python/validate_seed.py:92-103 | `IssueWarnings`: an issue's warnings are exactly the option warnings due and, for a present `work_repo` with non-empty `to_str` whose raw value is not among the repo names, a `work_repo` warning |
| ValidateSeed.CheckIssue | python/validate_seed.py:76-103 | one issue passes exactly when it is an object with a non-blank unseen stripped key, a non-blank title and a hashable `work_repo`; then it contributes its stripped key and its warnings; a rejection names this issue's index and carries no warnings unless it is the `work_repo` crash |
| ValidateSeed.AcceptedStep | python/validate_seed.py:85-88 | after an accepted prefix, the next issue extends it exactly when the loop accepts that issue against the keys seen so far |
| ValidateSeed.WarningsBetweenIff | python/validate_seed.py:76-103 | a warning is among those of a run of accepted issues exactly when the issue it names lies in the run and the warning is due for that issue |
| ValidateSeed.ScanCorrect | python/validate_seed.py:75-103 | `ScanIssues`: the issue loop either accepts every issue, emitting all their warnings in order, or stops at the first issue that breaks the accepted prefix with that issue's error, after the earlier issues' warnings |
| ValidateSeed.IssuesStage | python/validate_seed.py:71-111 | a non-list `issues` fails with `issues must be an array` and no warnings; any failure is that or an error about one issue; a summary counts the repo names and the issues |
| ValidateSeed.Validate | python/validate_seed.py:43-111 | a success means the document is an object with an issues list and counts its issues; a failure is never a usage or parse error |
| ValidateSeed.ValidateSource | python/validate_seed.py:37-42 | a parse failure is reported exactly when the file did not open or parse, then with no warnings; a usage error never is |
| ValidateSeed.Run | python/validate_seed.py:33-42 | a usage error exactly when the argument count is wrong; a parse error exactly when there is one argument and reading fails; a success only from validating the read document; every non-crash failure exits 3 |
| ValidateSeed.IssueLoopOutcome | python/validate_seed.py:71-103 | once the issue loop is reached, the validator's outcome and warnings are the loop's, run with the collected repo names |
| ValidateSeed.ValidateAcceptsIff | python/validate_seed.py:43-103 | the validator succeeds exactly on documents that pass every fatal check (`ValidSeed`), whatever their priority, estimate, size or `work_repo` values |
| ValidateSeed.EarlyFailureSilent | python/validate_seed.py:43-74 | a document that fails before the issue loop fails with no warnings |
| ValidateSeed.ValidateSummary | python/validate_seed.py:105-111 | on success the summary echoes the raw org name and project title (both non-blank), counts the distinct raw repo names (at most the number of repos) and the issues, and the warnings are those of all issues in order |
| ValidateSeed.ValidWarningsIff | python/validate_seed.py:92-103 | on success a warning is emitted exactly when it is due for the issue it names |
| ValidateSeed.IssuesListOutcome | python/validate_seed.py:71-74 | once the repos pass, a missing `issues` reads as an empty list, and `issues must be an array` is reported exactly when `issues` is present but not a list |
| ValidateSeed.IssueRejectedAt | python/validate_seed.py:76-103 | when issue k is the first the loop rejects, the validator fails with that issue's own error, after the warnings of issues 1..k-1 and what issue k itself emitted |
| ValidateSeed.IssueFailureAt | python/validate_seed.py:77-103 | after an accepted prefix, issue k is checked for object, key, duplicate key and title in that order, so a duplicate key is reported even when the title is also blank; each such failure carries exactly the warnings of issues 1..k-1; an issue passing them all with a list or dict `work_repo` crashes after its own option warnings |
| ValidateSeed.IssueErrorLocated | python/validate_seed.py:80-88 | an error about issue k means the issue loop was reached and issue k is the first rejected; a duplicate-key error names an object issue whose non-blank stripped key equals an earlier issue's |
| ValidateSeed.DictKeysCollide | python/validate_seed.py:80-87 | an object key and the dict it loads as give the same stripped key, so a second issue keyed by the dict is a duplicate of the first |
| JsonValue.HashKeyOf | python/validate_seed.py:69 | a value can go into a `set` exactly when it is not a list or dict |
| JsonValue.HashKeyMatchesPyEq | python/validate_seed.py:102 | two hashable values have the same set key exactly when Python's `==` holds between them (so `True` and `1` are the same repo name) |
| JsonValue.ToStr | python/validate_seed.py:29-30 | `to_str(None)` is empty; a string is itself; a list's text is bracketed and a dict's is braced |
| JsonValue.ReprStr | python/validate_seed.py:29-30 | a string's `repr` is quoted, opening and closing with the same quote character |
| JsonValue.DictItemsShape | python/validate_seed.py:39 | the dict `json.load` builds holds each name once, in the order of first occurrence |
| JsonValue.DictItemsLookup | python/validate_seed.py:39 | looking a name up in that dict gives the object's last binding of the name |
| JsonValue.GetOrDict | python/validate_seed.py:47-81 | `GetOr`/`Get` (`dict.get`): the value the loaded dict binds to the name, or the default (`None` for `Get`) when it binds none |
| JsonValue.ToStrOfDict | python/validate_seed.py:29-30 | an object prints as the dict it loads as, so repeated names print once, at the first position, with the last value |
| JsonValue.RepeatedNameExample | python/validate_seed.py:29-30 | `{"a": 1, "a": 2}` loads as `{'a': 2}` and prints as it |
| JsonValue.BlankIff | python/validate_seed.py:29-30 | `to_str(x).strip()` is empty exactly for `None` and strings of whitespace |
| JsonValue.IntToStrReadsBack | python/validate_seed.py:29-30 | `to_str` of an integer reads back to that integer |
| PyText.StripEmptyIff | python/validate_seed.py:48 | `Strip`: `strip()` leaves nothing exactly when the text is all whitespace |
| PyText.StripEnds | python/validate_seed.py:80 | what `strip()` leaves neither starts nor ends with whitespace |
| PyText.StripInfix | python/validate_seed.py:80 | `Strip`: what `strip()` leaves sits inside the text with only whitespace before and after it |
| PyText.StripIdempotent | python/validate_seed.py:80 | stripping twice is stripping once |
| PyText.IntToStr | python/validate_seed.py:29-30 | `str(i)` starts with a minus sign exactly when `i` is negative, and otherwise with a digit |
| PyText.IntToStrRoundTrip | python/validate_seed.py:29-30 | reading `str(i)` back gives `i` |
| PyText.NatToDecimal | python/compute_sprints.py:69 | `str(n)` of a natural number is a digit string with no leading zero except for 0 itself |
| PyText.DecimalRoundTrip | python/compute_sprints.py:40-41 | `int(str(n)) == n` |
| PyText.CanonicalDecimalRoundTrip | python/compute_sprints.py:40-41 | a digit string without a superfluous leading zero is exactly `str(int(s))` |
| Calendar.FromOrdinal | python/compute_sprints.py:70 | `date.fromordinal(n)` is a valid date whose day number is `n` |
| Calendar.OrdinalInjective | python/compute_sprints.py:51 | two valid dates with the same day number are the same date |
| Calendar.CivilRoundTrip | python/compute_sprints.py:51 | every valid date has a day number in 1..3652059, and converting it back gives the same date |
| Calendar.Pad2 | python/compute_sprints.py:70 | a two-digit zero-padded field reads back to its value |
| Calendar.Pad4 | python/compute_sprints.py:70 | a four-digit zero-padded year reads back to its value |
| Calendar.IsoDate | python/compute_sprints.py:70 | `strftime("%Y-%m-%d")` is ten characters with dashes at positions 4 and 7 |
| Calendar.ParseIsoDate | python/compute_sprints.py:70 | an ISO 8601 calendar date that reads as a day reads as one in 1..3652059 |
| Calendar.IsoFields | python/compute_sprints.py:70 | `YYYY-MM-DD` assembled from digit fields reads as the date the fields name, or as nothing when there is no such date |
| Calendar.IsoDateRoundTrip | python/compute_sprints.py:70 | every rendered start date reads back to the day it renders |
| Calendar.IsoDateOfCivil | python/compute_sprints.py:70 | the rendered text of a date's day number spells that date's year, month and day |
| ComputeSprints.NextWednesday | python/compute_sprints.py:22-25 | the result is a Wednesday, at most six days after the input, the input itself when that is a Wednesday, and no Wednesday lies in between |
| ComputeSprints.WeeklyCadenceKeepsWednesday | python/compute_sprints.py:64-67 | every start stays a Wednesday under a cadence that is a multiple of 7, and the second start is a Wednesday only under such a cadence |
| ComputeSprints.SprintOf | python/compute_sprints.py:38-45 | an issue contributes a sprint exactly when it is an object whose `sprint` is a positive integer, `true` (counted as 1) or a digit string of positive value, and then contributes that value; anything else (missing, `null`, non-positive, `false`, other strings, lists, dicts, non-object issues) is ignored |
| ComputeSprints.MaxSprint | python/compute_sprints.py:34-46 | the result bounds every counted sprint and is 0 or the sprint of some issue |
| ComputeSprints.MaxSprintConcat | python/compute_sprints.py:34-46 | the maximum over two runs of issues is the larger of their maxima |
| ComputeSprints.LoadMaxSprint | python/compute_sprints.py:27-46 | a seed that does not read gives 0; a non-object top level crashes; an issues list gives its maximum sprint; a positive count is some issue's sprint |
| ComputeSprints.ExampleSeedCount | python/compute_sprints.py:34-46 | a seed with sprints `"3"` and `2` counts 3 sprints |
| ComputeSprints.ExampleNoSprints | python/compute_sprints.py:59-62 | a seed that does not read, has no `issues` or has `issues: null` prints `[]` |
| ComputeSprints.ExampleIgnoredSprints | python/compute_sprints.py:38-45 | sprint values 0, -4, `false`, `"+3"` and a non-object issue are ignored, so `[]` is printed |
| ComputeSprints.FieldValue | python/compute_sprints.py:51 | a month field is worth 1..12 and a day field 1..31 |
| ComputeSprints.ParseStartDate | python/compute_sprints.py:50-54 | an accepted start date is a representable day and the text has 8 to 10 characters |
| ComputeSprints.ParseStartDateFields | python/compute_sprints.py:50-54 | `m/d/y` reads as the date its fields name exactly when the fields have `strptime`'s shapes and name a real date, and fails otherwise |
| ComputeSprints.FormatMDY | python/compute_sprints.py:51 | `MM/DD/YYYY` text is ten characters with slashes at positions 2 and 5 |
| ComputeSprints.StartDateRoundTrip | python/compute_sprints.py:51 | every valid date written as `MM/DD/YYYY` reads back to its own day number |
| ComputeSprints.FirstOfJanuary | python/compute_sprints.py:51 | `01/01/2024`, `1/1/2024` and `01/ 1/2024` read as day 738886 |
| ComputeSprints.ExampleLenientStart | python/compute_sprints.py:51 | single-digit and space-padded fields read like zero-padded ones |
| ComputeSprints.ExampleRejectedStart | python/compute_sprints.py:50-54 | a two-digit year, a 13th month, a 30th of February and year 0 are refused |
| ComputeSprints.ExampleFirstDay | python/compute_sprints.py:22-25 | 01/01/2024 is a Monday and its next Wednesday is two days later |
| ComputeSprints.Schedule | python/compute_sprints.py:65-72 | there are n sprints, and sprint i is titled `Sprint i`, starts `(i - 1) * cadence` days after the first start and lasts `cadence` days |
| ComputeSprints.ScheduleSpacing | python/compute_sprints.py:66-67 | sprints j > i start exactly `(j - i) * cadence` days apart, so strictly later for a positive cadence, and have different titles |
| ComputeSprints.ScheduleInRange | python/compute_sprints.py:66-67 | with a positive cadence every start lies between the first start and the last |
| ComputeSprints.ExampleSprints | python/compute_sprints.py:65-72 | three 14-day sprints from day 738888 start on days 738888, 738902 and 738916 |
| ComputeSprints.Render | python/compute_sprints.py:68-72 | the printed object has exactly `title`, `startDate` and `duration`, and its `startDate` reads back to the sprint's start day |
| ComputeSprints.ExampleDateFirst | python/compute_sprints.py:70 | day 738888 renders as `2024-01-03` |
| ComputeSprints.ExampleDateSecond | python/compute_sprints.py:70 | day 738902 renders as `2024-01-17` |
| ComputeSprints.ExampleDateThird | python/compute_sprints.py:70 | day 738916 renders as `2024-01-31` |
| ComputeSprints.ExitCode | python/compute_sprints.py:50-62 | the exit status is 0 exactly when sprints are printed and 2 exactly on a usage error |
| ComputeSprints.Generate | python/compute_sprints.py:50-73 | a bad start date is reported first, then a non-positive cadence; the seed crash happens exactly when both pass and the seed's top level is not an object; printed starts are representable days |
| ComputeSprints.OutputEntries | python/compute_sprints.py:64-73 | when sprints are printed, the start date, cadence and seed all passed; the array has one entry per sprint, and entry i is titled `Sprint i+1`, lasts `cadence` days and has a `startDate` that reads back to the day `i * cadence` days after the Wednesday on or after the start date |
| ComputeSprints.Output | python/compute_sprints.py:68-73 | the printed array has one entry per sprint, in order, each an object carrying the sprint's title and duration and a `startDate` that reads back to the sprint's start |
| ComputeSprints.GenerateSchedule | python/compute_sprints.py:59-72 | once date and cadence pass: n sprints titled `Sprint 1`..`Sprint n`, the first on the Wednesday on or after the start date, each `cadence` days after the previous one and `cadence` days long; an overflow exactly when the last start would fall after 9999-12-31 |
| ComputeSprints.ExampleSchedule | python/compute_sprints.py:59-72 | the example seed, starting `01/01/2024` every 14 days, gives three sprints starting on days 738888, 738902 and 738916 |

## Left out

- Argument parsing (`argparse` in the scheduler) is not modelled. Its usage errors, including a non-integer `--cadence`, exit before `main`'s logic starts.
- Opening files and `json.load` are not modelled; their outcome is an `Option<Json>` parameter. The text of the parse error is not kept.
- Printing is not modelled: the `ERROR:`/`WARNING:` messages, the `sorted(...)` rendering of option sets inside warnings, and `json.dumps` layout (including `indent=2`). Errors and warnings are datatypes that carry the index and the offending value.
- JSON floats and their `str()` rendering are not modelled: numbers are integers.
- Non-ASCII text is simplified:
  - `str.isdigit` and `strptime`'s `\d` accept only ASCII digits here;
  - `repr` treats every non-ASCII character as printable, since the Unicode database is not modelled.
- PyText.DecimalValue: has no limit on length. Python 3.11 and later refuse to convert a digit string of more than 4300 digits with `int()`, and `load_max_sprint` would skip such a sprint value.
- Calendar.IsoDate: always pads the year to four digits, as ISO 8601 requires. On platforms whose C `strftime` leaves years below 1000 unpadded, the program prints fewer digits.
- ComputeSprints.Generate: treats `timedelta`'s own limit of 999999999 days as part of the single overflow outcome. Any such shift also lands past 9999-12-31.
