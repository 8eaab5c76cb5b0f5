# PyUtils core, modelled in Dafny

PyUtils is a small Python utility library used by scripts that audit their own runs. This
project models the parts of `py_utils/utils.py`, and of its earlier copy
`src/py_utils/utils.py`, that have behaviour of their own:

- **the unique-filename resolver** `get_unique_filename`. The filesystem is the set of paths
  for which `os.path.exists` answers true. A free path is returned unchanged. An existing path
  is split with `os.path.splitext`, and `name (n)ext` is probed for n = 1, 2, … until a free name
  is found. Both revisions are modelled as `while` loops (`Utils.GetUniqueFilename`,
  `LegacyUtils.GetUniqueFilename`) and proved against one specification function,
  `UniqueFilename.ResolvedName`. The result is never an existing path. It is the least-numbered
  free candidate, and every lower-numbered candidate exists. The loop terminates on every finite
  filesystem because the decimal rendering of the counter is injective (`Decimal`). When the
  path exists, the counter it stops at is at most the number of existing paths.
- **`os.path.splitext`** (module `PosixPath`), the POSIX rule the resolver relies on. The
  extension starts at the last dot of the final path component. Leading dots of that component
  do not count, so `.bashrc` has no extension.
- **the markup detector** `_contains_html`, which is `re.search(r"<[^>]*>", s)`. It is proved to
  hold exactly when some `<` comes before some `>`.
- **the Python-filename predicate** `is_python_file`, which is `re.search(r"\.py$", s)`. Without
  MULTILINE, `$` also matches just before one final newline. So the predicate holds exactly when
  the name ends with `.py` or with `.py\n`.
- **`ScriptHelper`**, as a class. Its constructor captures the start time, the script name and
  the user, and creates the `job_status` table. Each log call builds a `JobStatus` record (shape
  from `py_utils/models.py`) and appends exactly one row to the database client. The client is
  reduced to a ghost sequence of rows. The level is INFO exactly on success. The elapsed time is
  the span truncated toward zero to whole seconds. The success path carries an empty error.

Clock readings, the user name, the host name and the script's absolute path are parameters.
Timestamps are integer microseconds.

The elapsed time is the span truncated toward zero to whole seconds (`int(...)` of
`total_seconds()`, `py_utils/utils.py:190`), and `ScriptHelpers.ElapsedSeconds` does the same.

## Model

| member | source | states |
|---|---|---|
| `Decimal.ToDecimal` | py_utils/utils.py:73-76 | the counter in `f'{name} ({count}){extension}'` renders as a non-empty digit string with no leading zero (unless it is "0") |
| `Decimal.ParseToDecimal` | py_utils/utils.py:73-76 | reading the rendered counter back as a decimal number gives the counter |
| `Decimal.ToDecimalOfParse` | py_utils/utils.py:73-76 | every canonical numeral is the rendering of the number it denotes, so the rendering is a bijection onto canonical numerals |
| `Decimal.ToDecimalInjective` | py_utils/utils.py:73-76 | distinct counters render as distinct strings |
| `PosixPath.RFind` | py_utils/utils.py:69 | the `rfind` that `os.path.splitext` uses returns the last index of the character, or -1 when it does not occur |
| `PosixPath.SplitExt` | py_utils/utils.py:69 | `name + extension == path`; the extension is the suffix from the extension position when there is one, and empty otherwise |
| `PosixPath.ExtensionAtIsLastDot` | py_utils/utils.py:69 | the extension position is the last dot, comes after the last `/`, and follows a non-dot character of the final component |
| `PosixPath.ExtensionAtUnique` | py_utils/utils.py:69 | a path has at most one extension position |
| `PosixPath.SplitExtLastSuffix` | py_utils/utils.py:69 | `archive.tar.gz` splits into `archive.tar` and `.gz`: only the last suffix is the extension |
| `PosixPath.SplitExtLeadingDot` | py_utils/utils.py:69 | `.bashrc` has no extension |
| `PosixPath.SplitExtDottedDirectory` | py_utils/utils.py:69 | `logs.d/run` has no extension: a dot in a directory name does not count |
| `UniqueFilename.CandidateParts` | py_utils/utils.py:73-76 | the name probed for counter n (`f'{name} ({count}){extension}'`, also `src/py_utils/utils.py:65-68`) starts with the name and ` (`, ends with `)` and the extension, and the digits in between read back as n |
| `UniqueFilename.FirstCandidate` | py_utils/utils.py:71-73 | the first name probed, for count 1, is `name + " (1)" + extension` |
| `UniqueFilename.CandidateInjective` | py_utils/utils.py:73-76 | for one split, different counters give different probed names |
| `UniqueFilename.AllTakenBound` | py_utils/utils.py:71-76 | if the candidates 1..n all exist, then n is at most the number of existing paths (this bounds the loop) |
| `UniqueFilename.LeastFreeUnique` | py_utils/utils.py:74 | the counter at which probing stops (free, all lower ones taken) is unique |
| `UniqueFilename.LeastFreeFrom` | py_utils/utils.py:71-76 | probing from n, when all counters below n are taken, stops at the least free counter at or above n |
| `UniqueFilename.ResolvedName` | py_utils/utils.py:66-78 | the result never exists; a free path is returned unchanged; for an existing path the result is the candidate of the least free counter, and all lower candidates exist |
| `UniqueFilename.ResolvedCounterBound` | py_utils/utils.py:71-76 | when the path exists, the counter the loop stops at is at most the number of existing paths |
| `UniqueFilename.FirstCandidateWhenFree` | src/py_utils/utils.py:61-65 | the first name tried is `name + " (1)" + extension`, and it is returned when it is free |
| `Utils.GetUniqueFilename` | py_utils/utils.py:49-78 | the probing loop returns exactly `ResolvedName` of the filesystem and the path |
| `Utils.TestFileSplit` | tests/py_utils/test_utils.py:11-13 | `get_unique_filename_test.file` splits into `get_unique_filename_test` and `.file` |
| `Utils.TestFileCandidates` | tests/py_utils/test_utils.py:11-13 | the probed names for counters 1 and 2 are the two duplicate names the tests expect |
| `Utils.UniqueFilenameScenario` | tests/py_utils/test_utils.py:22-37 | with no file the name is kept; with the file, ` (1)` is added; with ` (1)` taken too, ` (2)` is added |
| `Utils.TagMatchFrom` | py_utils/utils.py:26-28 | a `<` with a `>` somewhere after it starts a match of `<[^>]*>`, which ends at or before that `>` |
| `Utils.ContainsHtml` | py_utils/utils.py:17-31 | `_contains_html(s)`, a search for `<[^>]*>`, holds iff some `<` occurs before some `>` in s |
| `Utils.TagMatchIff` | py_utils/utils.py:26-31 | the pattern `<[^>]*>` matches somewhere in s iff some `<` occurs before some `>` in s |
| `Utils.ContainsHtmlOfMarkup` | tests/py_utils/test_utils.py:15-19 | `<html><p></p></html>` contains markup |
| `Utils.NoHtmlWithoutClose` | py_utils/utils.py:26-31 | text without any `>` never contains markup |
| `Utils.NoHtmlWithoutClosingBracket` | tests/py_utils/test_utils.py:15-20 | the test's sentence with a `<` and no `>` does not contain markup |
| `Utils.IsPythonFile` | py_utils/utils.py:81-95 | `is_python_file(s)`, a search for `\.py$`, holds iff s ends with `.py` or with `.py` and one final newline |
| `Utils.PyMatchIff` | py_utils/utils.py:90-95 | the pattern `\.py$` (where `$` also matches before one final newline) matches somewhere in s iff s ends with `.py` or `.py\n` |
| `Utils.IsPythonFileExamples` | py_utils/utils.py:90-95 | `script.py` and `script.py\n` are Python file names; `script.pyc` and `script.py\n\n` are not |
| `LegacyUtils.GetUniqueFilename` | src/py_utils/utils.py:41-70 | a free path is returned unchanged; otherwise the result is the least-numbered free candidate, every lower-numbered candidate exists, and the result never exists |
| `LegacyUtils.RevisionsAgree` | src/py_utils/utils.py:58-70 | any result meeting the earlier revision's contract is the name the later revision's specification gives, so both revisions agree |
| `ScriptHelpers.ElapsedSeconds` | py_utils/utils.py:190 | `int(td.total_seconds())` is the span in whole seconds, truncated toward zero; it is non-negative when the clock does not go back |
| `ScriptHelpers.DbClient.constructor` | py_utils/orm.py:27-52 | a client connected to a database holding the given rows |
| `ScriptHelpers.DbClient.CreateTables` | py_utils/orm.py:99-115 | afterwards the table exists, and its rows are unchanged |
| `ScriptHelpers.DbClient.InsertData` | py_utils/orm.py:117-150 | on an existing table, appends exactly the given row and returns it; on a missing table, fails and leaves the rows unchanged (rollback) |
| `ScriptHelpers.ScriptHelper.constructor` | py_utils/utils.py:153-167 | captures the start time, script name, user and client, creates the tables, and writes no row |
| `ScriptHelpers.ScriptHelper.JobStatusOfType` | py_utils/utils.py:187-203 | level is INFO iff succeeded and ERROR iff not; script name, user and start time are those captured at construction; elapsed time is end − start truncated to seconds, and non-negative with second-accurate bounds when end ≥ start |
| `ScriptHelpers.ScriptHelper.LogFailedJob` | py_utils/utils.py:169-176 | appends exactly one row, the failure record with the given error, and changes nothing else |
| `ScriptHelpers.ScriptHelper.LogSuccessfulJob` | py_utils/utils.py:178-185 | appends exactly one row, the success record with an empty error, and changes nothing else |
| `ScriptHelpers.FailedThenSuccessfulScenario` | tests/py_utils/test_utils.py:39-64 | on a fresh database, a failed then a successful log give exactly two rows: ERROR then INFO, both for `test_signature.py`, with non-negative elapsed times and errors "File not found" then "" |

## Left out

- `send_email` (both revisions) builds MIME messages, reads files and talks SMTP. That is I/O,
  so it is not modelled. Its only link to the core is the choice of an HTML body by
  `_contains_html`, which is modelled.
- `directory_exists` only queries the filesystem and has no logic of its own.
- `py_utils/log_config.py` configures process-wide logging handlers, which is global I/O state.
  It calls `get_unique_filename` and adds no logic of its own.
- `py_utils/orm.py` beyond what ScriptHelper uses is not modelled: engine creation and
  connection errors, `query_model`, `update_model` and `convert_model_to_dict`. These are
  SQLModel/SQLAlchemy sessions. Note that `update_model` raises "The model does not exist." on
  a missing key; it does not return nothing.
- `ScriptHelpers.DbClient.InsertData`: the only failure modelled is a missing table. Integrity
  errors and other database failures come from the database library.
- `ScriptHelpers.ScriptHelper.JobStatusOfType`: `job_summary_data` is kept as the
  `{data, error}` object, not as its JSON text. The `data` string stands for
  `json.dumps(summary_data)` and is passed in as text. JSON serialisation is not modelled.
- The `id` column (the primary key, assigned by the database) is not part of the record, and
  neither are `created_date` and `modified_date`. Those two come from the model's field
  defaults: `created_date` from `datetime.utcnow()` evaluated once when the module is imported,
  and `modified_date` from a `default_factory` evaluated when each record is built. No clock is
  modelled for them. `JobStatus.__str__` is formatting only.
- The filesystem is a fixed set of paths: those for which `os.path.exists` answers true. A path
  it cannot inspect (for example because of permissions) is answered false and is therefore free
  in the model. Files created by other processes during probing are not modelled.
- `os.path.splitext` is modelled for POSIX paths only (separator `/`), on `str`, not `bytes`.
- Time zones are not modelled: timestamps are instants in microseconds. `total_seconds()`
  returns a float; for spans under about 285 years the truncated float equals the exact
  truncated quotient, and longer spans are not modelled.
- `datetime.now`, `getpass.getuser`, `socket.gethostname` and `os.path.abspath` are parameters.
