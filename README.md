# ParamHunter, modelled in Dafny

ParamHunter is a command-line URL prober. It does five things:

- It reads targets from `-u` and from a list file (`load_targets`).
- It probes every target on a thread pool with GET or POST (`check_url`, `run`).
- It extracts the names of each URL's query parameters (`extract_params`).
- It prints a table or one log line per probe (`pretty_print`).
- It writes a text log and, on request, a CSV file (`save_txt`, `save_csv`).

The logic exists twice: once in the package (`paramhunter/core.py`, `paramhunter/cli.py`) and once in the standalone script `paramhunter.py`.

This project models that logic as Dafny functions, methods and lemmas. The modules are:

- `Strings`: the Python `str` behaviour the prober relies on. This is `strip()` with Python's whitespace set, `split`, `join`, ASCII `upper()` and `str(n)`.
- `Seqs`: generic sequence facts:
  - first-seen deduplication, which is what dict keys do;
  - list comprehensions with a filter;
  - completion orders, which are permutations of submission positions.
- `Query`: `extract_params`. It models three steps:
  - how `urlparse` finds the query: delete tab, CR and LF, cut at the first `#`, take the text after the first `?`;
  - how `parse_qs` with its defaults splits the query and keeps names;
  - which names become dict keys.
- `Targets`: `load_targets` over the lines of the file, and `collect_targets`.
- `Probe`: the record `check_url` builds. The session call is a parameter that answers with a status code or fails with a message.
- `Report`: the three-way log line, the table cells, `pretty_print`, and the CSV rows of `save_csv`.
- `Dispatch`: `run`. There is one probe per submitted target, collected in a completion order given as a parameter.
- `Cli` and `Standalone`: the two `main` functions. Given the same answers from the network, they are proved to end in the same outcome, `Cli.MainSpec`.

Three behaviours of the code are easy to misread. The model follows the code in each:

- **Blank values.** `extract_params` uses `parse_qs` with its defaults, so blank values are dropped. A field `empty=` yields no key: `?a=1&b=2&b=3&empty=` gives `[a, b]`. The test `tests/test_core.py:4-7` expects `empty` as well. `Query.TestShapeKeys` proves both sides: the code's result, and that only keeping blank values would give `[a, b, empty]`.
- **Comment lines.** `load_targets` (`paramhunter/core.py:96`) tests for `#` on the raw line, before stripping. An indented `   # x` line is therefore kept, as `# x` (`Targets.IndentedCommentKept`).
- **The error branch.** The log line (`paramhunter/cli.py:65`) tests the error for truthiness. A failure with an empty message is logged as `[-] url -> no params (http None)` (`Report.EmptyFailureLine`).

## Model

| member | source | states |
|---|---|---|
| `Query.QueryOf` | paramhunter/core.py:58 | the query `urlparse` finds has no `#` and none of tab, CR, LF; what it is, is stated by `Query.QueryAfterFirstMark` |
| `Query.QueryAfterFirstMark` | paramhunter/core.py:58 | after deleting tab, CR and LF and cutting at the first `#`, the query is the text after the first `?`, or empty when there is no `?` |
| `Query.QueryBeforeFragment` | paramhunter/core.py:58 | for `p?q#f` where `p` has no `?`, `p` and `q` have no `#`, and no part has tab, CR or LF, the query is exactly `q` |
| `Query.QueryAfterMark` | paramhunter/core.py:58 | for `p?q` where `p` has no `?`, and neither part has `#`, tab, CR or LF, the query is exactly `q` |
| `Query.NoQueryNoParams` | paramhunter.py:44-46 | a URL with no `?` before its first `#` has no keys |
| `Query.FieldName` | paramhunter/core.py:59 | `parse_qsl`'s rule for one field: an empty field gives nothing; with blank values kept every other field gives a name; a field without `=` gives its decoded text only when blank values are kept |
| `Query.FieldKeptIff` | paramhunter/core.py:59 | with blank values dropped, a field yields a name iff it has an `=` before its last character, i.e. a non-empty value |
| `Query.FieldNameBeforeFirstEquals` | paramhunter/core.py:59 | a kept field's name is the decoded text before its first `=` |
| `Query.FieldNamesMembers` | paramhunter/core.py:59 | a name is produced iff some field yields it |
| `Query.ExtractParams` | paramhunter/core.py:57-59 | the keys contain no duplicates |
| `Query.ExtractParamsMembers` | paramhunter/core.py:57-59 | a string is a key iff some `&`-field of the URL's query yields it as a name |
| `Query.ExtractParamsFirstSeen` | paramhunter/core.py:59 | keys are ordered by their first occurrence among the query's names |
| `Query.PairsNames` | paramhunter/core.py:59 | plain `k=v` fields yield the names whose value is non-empty; with blank values kept, all names |
| `Query.TestShapeKeys` | paramhunter/core.py:57-59 | a URL shaped `p?a=v1&b=v2&b=v3&e=` gives keys `[a, b]`; only with blank values kept would it give `[a, b, e]` |
| `Query.CutFragmentAfterRemoveDropped` | paramhunter/core.py:58 | deleting tab, CR and LF commutes with cutting the fragment |
| `Seqs.Distinct` | paramhunter/core.py:59 | dict keys: no duplicates, every name is kept, nothing else appears |
| `Seqs.DistinctFirstSeenOrder` | paramhunter/core.py:59 | dict keys are ordered by first insertion |
| `Seqs.FilterMapSpec` | paramhunter/core.py:96 | a filtered comprehension keeps exactly the accepted elements, maps each one and preserves their order |
| `Seqs.PickPermutation` | paramhunter/core.py:169-170 | reading the submissions in a completion order gives a permutation of them |
| `Strings.Strip` | paramhunter/core.py:96 | `strip()` returns the slice between leading and trailing whitespace; both ends of the result are non-whitespace |
| `Strings.StripEmptyIff` | paramhunter/core.py:96 | `strip()` is empty iff the line is all whitespace |
| `Strings.SplitJoin` | paramhunter/core.py:116 | splitting a `,`-join gives back the parts when no part holds `,` |
| `Targets.Keeps` | paramhunter/core.py:96 | a kept line is non-empty, does not start with `#`, and strips to a non-empty text with no whitespace at either end |
| `Targets.LoadTargets` | paramhunter/core.py:94-96 | at most one target per line; each target is non-empty with no whitespace at either end |
| `Targets.LoadTargetsSpec` | paramhunter/core.py:96 | the k-th target is the stripped k-th kept line; kept positions increase (file order); a line is kept iff its stripped text is non-empty and the raw line does not start with `#` |
| `Targets.LoadTargetsStripped` | paramhunter/core.py:96 | every target equals its own `strip()` |
| `Targets.LoadTargetsAppend` | paramhunter/core.py:96 | loading a concatenation of lines is concatenating the loads |
| `Targets.IndentedCommentKept` | paramhunter.py:63 | an indented `   # x` line is kept, as `# x` |
| `Targets.TestFileTargets` | paramhunter/core.py:94-96 | a file of a comment, two indented URLs and a blank line gives the two URLs in order |
| `Targets.CollectTargets` | paramhunter/cli.py:36-42 | the list built by append and extend is `TargetsOf(url, list)` |
| `Targets.TargetsOfOrder` | paramhunter/cli.py:38-41 | a truthy `-u` URL comes first; after it, the k-th target is the stripped text of the k-th line the filter keeps, in file order, and there are no others |
| `Targets.TargetsOfEmptyIff` | paramhunter.py:123-126 | there are no targets iff `-u` is missing or empty and no line of the list is kept |
| `Probe.RequestFor` | paramhunter/core.py:71-74 | GET iff the method spells `get` in some mix of cases; otherwise POST carrying `data` |
| `Probe.GetMethodSpelling` | paramhunter/core.py:71 | `method.upper() == "GET"` iff the method is `get` in some mix of cases |
| `Probe.MethodChoice` | paramhunter/core.py:71-74 | `GET` and `get` send GET; `POST` and the empty string send POST with the body |
| `Probe.CheckUrl` | paramhunter/core.py:62-91 | URL and time are carried over; exactly one of status and error is set; an error has no keys; a status has the URL's keys; the outcome can be read back from the record |
| `Probe.WellFormedIsCheckUrl` | paramhunter/core.py:76-91 | every record of that shape is the one `check_url` builds from its URL and the outcome it records |
| `Probe.FailureHasNoParams` | paramhunter/core.py:83-91 | a failed probe has no status and no keys, whatever the URL's query |
| `Report.Classify` | paramhunter/cli.py:64-72 | the line kind is `[ERROR]` iff the error is truthy, `[+]` iff not and the keys are non-empty, `[-]` otherwise |
| `Report.LogLine` | paramhunter/cli.py:64-72 | the kind of the line, read back from its tag, is the record's `Classify` kind |
| `Report.LogLineTagged` | paramhunter/cli.py:65-72 | a log line opens with its kind's tag (`[ERROR] `, `[+] `, `[-] `) and then the URL; its kind can be read back |
| `Report.LogLines` | paramhunter/core.py:139-147 | one log line per record, in order |
| `Report.ErrorTakesPrecedence` | paramhunter/cli.py:65-70 | a truthy error gives an `[ERROR]` line whatever the keys |
| `Report.ParamsLineOnlyOnResponse` | paramhunter.py:138-143 | on a record of `check_url`'s shape, a `[+]` line implies no error, a status, and the URL's keys |
| `Report.EmptyFailureLine` | paramhunter/cli.py:65-72 | a failure with an empty message is logged as `[-] url -> no params (http None)` |
| `Report.StatusCell` | paramhunter/core.py:131 | the status cell is `ERR` iff the status is None or 0 |
| `Report.ParamsCell` | paramhunter/core.py:132 | the params cell is `-` iff there are no keys or the single key `-` |
| `Report.JoinIsSingle` | paramhunter/core.py:132 | a join equals a text without the separator iff it has one part, that text |
| `Report.ParamsCellSplits` | paramhunter/core.py:132 | a params cell of keys without `,` splits back into the keys |
| `Report.TableRow` | paramhunter/core.py:129-134 | one cell per table column: the URL under URL, the status cell under Status, the params cell under Params |
| `Report.PrettyPrint` | paramhunter/core.py:120-147 | a table with one row per record when `rich` is installed; otherwise one log line per record |
| `Report.CsvRow` | paramhunter/core.py:115-116 | the CSV row dict has `params` replaced by its `,`-join; every other key is unchanged; no key is lost |
| `Report.CsvCellsAre` | paramhunter/core.py:110-117 | cells in column order url, status, params, time_ms, error; None becomes `""` |
| `Report.SaveCsv` | paramhunter/core.py:109-117 | the header row first, then one row per record in order |
| `Report.CsvRoundTrip` | paramhunter/core.py:109-117 | a record comes back from its CSV row when no key holds `,`, the keys are not `[""]`, and the error is not `""` |
| `Report.CsvMergesCommaKey` | paramhunter/core.py:116 | keys `["x,y"]` and `["x", "y"]` give the same CSV row |
| `Report.CsvMergesEmptyError` | paramhunter/core.py:117 | an empty error message is written like no error at all |
| `Dispatch.Probed` | paramhunter/core.py:164-166 | the i-th submitted probe's record carries the i-th target |
| `Dispatch.Run` | paramhunter/core.py:150-171 | one record per target, in completion order; the multiset of record URLs equals the multiset of targets, duplicates included |
| `Dispatch.CompletedUrls` | paramhunter/core.py:163-170 | the completed records' URLs are the targets read in completion order, a permutation of them |
| `Dispatch.EachProbeOnce` | paramhunter/core.py:163-169 | each submitted index occurs exactly once in the completion order, so each submitted probe, duplicates included, is collected once |
| `Cli.BuildLines` | paramhunter/cli.py:63-72 | the `lines` loop yields the log lines of the records, one per record, in order |
| `Cli.RunMain` | paramhunter/cli.py:45-82 | `main` ends in `MainSpec`: no probes when there are no targets; otherwise the records, their log lines, the console view, the text file and the CSV rows |
| `Cli.NoTargetsIff` | paramhunter/cli.py:47-50 | `main` stops with the notice iff neither `-u` nor `-l` yields a target |
| `Cli.FinishedShape` | paramhunter/cli.py:52-72 | a finished run has one record per target with the targets' URLs rearranged, and one log line of the matching kind per record |
| `Standalone.RunMain` | paramhunter.py:105-154 | for the same network answers, the script's `main` ends in the same outcome as the package's `main`, `Cli.MainSpec` |
| `Standalone.ProbeAndLog` | paramhunter.py:131-143 | the combined loop appends one record and one line per completed probe; the lists stay equal in length and aligned by index |

## Left out

- `make_session`: it configures retries, adapters, proxies and headers of `requests`. That is library behaviour outside this model.
- HTTP requests, proxying, timeouts, retries and backoff: the outcome of each probe is the parameter `Network`, indexed by submission position.
- `time_ms`: it comes from wall-clock float arithmetic. It is an opaque natural number supplied with each outcome.
- Concurrency: `ThreadPoolExecutor` and `--threads` are not modelled. `as_completed` is modelled only as a completion order, a permutation supplied as a parameter.
- File I/O: opening and reading the list file and writing the outputs are not modelled. The list file is given as its lines, each with its line end. An unreadable file (`IOError`) is not modelled.
- `save_txt`: only the text it writes is modelled, the lines joined with `"\n"`.
- `save_json` and `--json`: JSON serialisation is not modelled.
- `csv.DictWriter` quoting and escaping: a row is modelled as its cells before quoting.
- `Report.RowCells`: states only the cell count. `DictWriter`'s `ValueError` for keys outside the header is not modelled, nor is its rendering of list values; neither occurs for the records `check_url` builds.
- `Report.FlattenParams` and `Report.CsvRow`: require `params` to be missing or a list of strings, as in every record of `check_url`. What `",".join` does with other values is not modelled.
- The `rich` rendering, the ASCII banner, the header style and the "No targets provided" text are not modelled. `pretty_print` is reduced to the table cells or the plain lines.
- `argparse` is not modelled. `Cli.Args` is the parsed result. `--output`, `--timeout`, `--retries`, `--backoff` and `--proxy` have no effect on the modelled logic. `--txt` is parsed but never read.
- `Cli.RunMain`: assumes a positive `--threads`. `ThreadPoolExecutor(max_workers=threads)` (`paramhunter/core.py:162`) raises `ValueError` for zero or a negative count, so `main` ends in a traceback and writes no `.txt`; the model always finishes.
- `Standalone.RunMain`: assumes a positive `--threads` for the same reason (`paramhunter.py:133`).
- `Standalone.RunMain`: the script's session sends different requests. The package's `make_session` sets the header `User-Agent: ParamHunter/0.8` (`paramhunter/core.py:52`). The script's `make_session` (`paramhunter.py:30-42`) sets none, so `requests` sends its default agent. A request here carries only its method and body, and both `main`s are given the same `Network`. A server that answers by User-Agent can therefore give the two programs different statuses, and so different records, log lines and CSV rows; the model does not capture that.
- `Probe.RequestFor`: `upper()` is modelled for ASCII letters only. Non-ASCII characters never upper-case to `G`, `E` or `T`, so the choice between GET and POST is unaffected.
- Percent-decoding: the `unquote` inside `parse_qs` is modelled only as far as `'+'` becomes a space and a name without `%` is unchanged. The decoding of names that contain `%` is the function parameter `Unescape`.
- `Query.QueryOf`: the `ValueError` that `urlsplit` raises for a malformed IPv6 host in brackets is not modelled. Because `extract_params` runs inside the `try`, such a URL gets an error record even when the server answers.
- `parse_qs` limits (`max_num_fields`) and `;` handling are not modelled: with the defaults used, only `&` separates fields.
- `Exception` vs `BaseException`: every failure of the session call is a `Failure` outcome. Interrupts that escape `except Exception` are not modelled.
- `paramhunter/__init__.py` only re-exports names and is not part of this model.
