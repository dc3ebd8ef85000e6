# nomad cache commands, modelled in Dafny

`nomad` is a command-line wrapper around a geocoding/GIS library. Its own
logic is the cache tooling in `src/nomad/__main__.py`:

- the cache scanner `get_cache_data`: it walks the cached JSON files, keeps
  each parsed document that a filter accepts (by default `len(x) != 0`),
  and turns a list document into its first element;
- `cache inspect` and `cache search QUERY`: each prints one block per
  scanned document. A block is a `file_path` title line, then one
  `key<12 value` line per field whose value is not a dict or a list.
  Search prints a block only when the query matches the field lines;
- `cache rm [--empty] [--force]`: the flag picks the scan filter, a prompt
  must be confirmed unless forced, and then each target file is deleted
  and its path echoed.

The model also covers the test suite's argument flattener
`sanitize_runner_params` (`tests/test_main.py`).

Modules:

- `Wrappers` (`wrappers.dfy`): `Option` and `Result`.
- `JsonValue` (`json_value.dfy`): the parsed document and Python's `len()`.
- `CacheData` (`cache_data.dfy`): filters, normalisation, the scanner and
  its description by positions.
- `Render` (`render.dfy`): left alignment, field lines, contents text,
  title and block.
- `Commands` (`commands.dfy`): inspect and search.
- `CacheRemoval` (`cache_removal.dfy`): rm as written, and rm corrected.
- `RunnerParams` (`runner_params.dfy`): the argument flattener and join.

Abstractions:

- The cache directory is the sequence of `(path, parsed document)` pairs
  in the order the recursive glob lists them.
- Python's exceptions on a document are the explicit `Error` values:
  `LenUndefined` is `len()` of None, a bool or a number; `EmptyListIndex`
  is `[0]` of `[]`; `NotAnObject` is `.items()` of a non-dict.
- The scanner is a generator. Each command therefore keeps what it printed
  or deleted before the first exception, and reports that exception.
- Three things are parameters: the regular-expression search is
  `matches(query, text)`, Python's `str()` of a number is `showNum`, and the
  answer to the confirmation prompt is `confirmed`.
- Console output is the list of strings handed to `print()`.

`cache rm --empty` announces its scope as "only empty JSON cached data",
and the flag's help reads "Toggle remove empty cache." The code nevertheless
deletes the non-empty documents. The model follows the code (`Remove`) and
also gives the corrected command (`RemoveIntended`); see Findings.

## Model

| member | source | states |
|---|---|---|
| JsonValue.Len | src/nomad/__main__.py:153 | `len()` is defined exactly on str, list and dict documents, and is 0 exactly for `""`, `[]` and `{}` |
| CacheData.DefaultFilter | src/nomad/__main__.py:153 | the default filter raises TypeError exactly on None, bool and number documents, and rejects exactly `""`, `[]` and `{}` |
| CacheData.AcceptAll | src/nomad/__main__.py:250 | the filter `lambda x: True`; `CacheRemoval.TargetFilter` states that it accepts every document |
| CacheData.Normalise | src/nomad/__main__.py:169 | a list becomes its first element and raises IndexError exactly when empty; any other document is kept unchanged |
| CacheData.Visit | src/nomad/__main__.py:164-172 | one file raises exactly when it does not pass (the filter raises, or it accepts `[]`), is skipped exactly when the filter rejects it, and otherwise is yielded normalised under its own path |
| CacheData.GetCacheData | src/nomad/__main__.py:151-172 | the scan yields at most one entry per file; a scan that raises nothing and yields every file keeps every path in order; which files are yielded is stated by `ScanWitness` |
| CacheData.ScanWitness | src/nomad/__main__.py:160-172 | any filter: files before the stop pass, the file at the stop raises the reported exception, and the yielded entries are exactly the accepted files before the stop, once each, in input order, normalised, path unchanged |
| CacheData.DefaultScanKeepsNonEmpty | src/nomad/__main__.py:151-172 | default filter over str/list/dict documents: the scan raises nothing, and a file is yielded, in order, exactly when its document has non-zero length |
| CacheData.DefaultScanCount | src/nomad/__main__.py:160-172 | default filter over str/list/dict documents: the scan yields as many entries as there are non-empty documents |
| CacheData.AcceptAllYieldsEveryFile | src/nomad/__main__.py:160-172 | accept-all filter with no `[]` document: every file is yielded in order, normalised, path unchanged |
| Render.LeftAlign | src/nomad/__main__.py:197 | `:<12` keeps the text as a prefix, pads with spaces on the right up to the width, and never cuts a longer text |
| Render.Show | src/nomad/__main__.py:197 | a scalar value prints as Python's `str()`: `None`, `True`/`False`, the string itself, and numbers through `showNum` |
| Render.FieldLine | src/nomad/__main__.py:197 | the line of one scalar field; its layout is stated by `FieldLineLayout` |
| Render.FieldLineLayout | src/nomad/__main__.py:197 | a field line reads back as the key, spaces to column max(12, len(key)), one space, the rendered value and a newline |
| Render.ScalarFields | src/nomad/__main__.py:193-195 | a field is kept exactly when its value is not a dict or a list; order and multiplicity are stated by `ScalarFieldsAppend` and `ScalarFieldsOne` |
| Render.ScalarFieldsAppend | src/nomad/__main__.py:193-195 | the kept fields of two runs in a row are the first run's kept fields followed by the second's, so key order is kept |
| Render.ScalarFieldsOne | src/nomad/__main__.py:195 | one field is kept once and unchanged when scalar, and dropped when a dict or a list |
| Render.Contents | src/nomad/__main__.py:190-197 | the contents text of a dict's fields; `ContentsAreScalarLines` states what it holds and `BuildContents` that the append loop builds it |
| Render.ContentsAreScalarLines | src/nomad/__main__.py:190-197 | the contents text is exactly one field line per non-container field, in key order |
| Render.ContentsAppend | src/nomad/__main__.py:193-197 | the contents of two runs of fields in a row is the first run's contents followed by the second's |
| Render.BuildContents | src/nomad/__main__.py:190-197 | the source's append loop builds exactly the lines of the non-container fields, in key order |
| Render.Title | src/nomad/__main__.py:189 | the title is `file_path`, four spaces, the path and a newline |
| Render.Block | src/nomad/__main__.py:189-200 | the block of a dict document is its title followed by its contents; any other document raises AttributeError |
| Commands.Report | src/nomad/__main__.py:216-231 | the print loop prints at most one block per yielded entry |
| Commands.MatchesQuery | src/nomad/__main__.py:229 | the search test `re.search(query, contents, re.IGNORECASE)` as the abstract `matches`; `SearchPrintsMatches` and `SearchKeepsMatchingBlocks` state how it selects blocks |
| Commands.Consume | src/nomad/__main__.py:187-200 | a command over the lazy scan: an exception in the loop body wins, otherwise the scan's own exception ends the command; `InspectPrintsBlocks` and `InspectStopsAtNonObject` show both endings |
| Commands.Inspect | src/nomad/__main__.py:186-200 | inspect prints at most one block per cached file |
| Commands.Search | src/nomad/__main__.py:216-231 | search prints at most one block per cached file |
| Commands.ReportPrintsEveryBlock | src/nomad/__main__.py:187-200 | over dict documents the print loop raises nothing and prints every entry's block, in order |
| Commands.ReportSelectsSubsequence | src/nomad/__main__.py:216-231 | the blocks printed under any selection are a subsequence of those printed under none, and the run ends the same way |
| Commands.ReportSelectsExactly | src/nomad/__main__.py:216-231 | over dict documents a text is printed exactly when it is the block of an entry whose contents satisfy the selection |
| Commands.CacheDocumentsScanToObjects | src/nomad/__main__.py:151-172 | when every document is a dict, or a list led by a dict, the scan raises nothing and yields only dicts |
| Commands.InspectBlockCount | src/nomad/__main__.py:186-200 | over such documents, inspect raises nothing and prints exactly one block per non-empty file |
| Commands.InspectPrintsBlocks | src/nomad/__main__.py:186-200 | when every yielded document is a dict, inspect prints, in scan order, each yielded entry's title and contents, and ends with the scan's exception |
| Commands.ReportStopsAtNonObject | src/nomad/__main__.py:193 | the print loop prints the blocks before the first non-dict document, then raises AttributeError there |
| Commands.InspectStopsAtNonObject | src/nomad/__main__.py:187-200 | when the scan yields a non-dict document, inspect prints one block per entry before the first one, in scan order, then raises AttributeError |
| Commands.SearchStopsAtNonObject | src/nomad/__main__.py:216-231 | search raises AttributeError at the same non-dict document |
| Commands.SearchWithinInspect | src/nomad/__main__.py:216-231 | search prints a subsequence of inspect's blocks, each unchanged, and ends the same way |
| Commands.SearchPrintsMatches | src/nomad/__main__.py:216-231 | when every yielded document is a dict, search ends with the scan's exception and prints a block exactly when the query matches that entry's contents, title excluded |
| Commands.ReportKeepsSelected | src/nomad/__main__.py:216-231 | any selection prints exactly the blocks of the unselected run whose entry is a dict with accepted contents, in order |
| Commands.SearchKeepsMatchingBlocks | src/nomad/__main__.py:186-231 | search prints exactly the blocks inspect prints whose contents the query matches, in the same order, and ends the same way |
| Commands.SearchMatchingAllIsInspect | src/nomad/__main__.py:228-231 | a query that matches every text makes search identical to inspect |
| Commands.ReportSameSelection | src/nomad/__main__.py:228-231 | two selections that agree on every text print the same |
| CacheRemoval.Gate | src/nomad/__main__.py:257-281 | without `--force` the scope question is asked and declining aborts with nothing deleted or printed; otherwise one header line is printed, then one `Deleted:` line per target, in order, and every target is deleted |
| CacheRemoval.Scope | src/nomad/__main__.py:247-253 | the scope text is "all cached data" without `--empty` and "only empty JSON cached data" with it |
| CacheRemoval.TargetFilter | src/nomad/__main__.py:247-254 | without `--empty` every document is a target; with it a document is a target exactly when it has a non-zero length, and `len()` raises on the rest |
| CacheRemoval.Notices | src/nomad/__main__.py:269-281 | one `Deleted: <path>` line per deleted path, in order |
| CacheRemoval.Remove | src/nomad/__main__.py:242-281 | rm aborts exactly when it is not forced and not confirmed, then deleting nothing; past the gate it deletes exactly the paths the flag's target scan yields, in order, and ends with that scan's exception |
| CacheRemoval.RemoveAllDeletesEveryFile | src/nomad/__main__.py:248-250 | without `--empty`, once past the gate and with no `[]` document, every file is deleted once, in glob order, with no exception |
| CacheRemoval.AllFlagDeletesScanned | src/nomad/__main__.py:248-250 | without `--empty`, once past the gate, the deletions and the exception are the accept-all scan's |
| CacheRemoval.AcceptAllStopsAtEmptyList | src/nomad/__main__.py:160-172 | the accept-all scan yields every file before the first `[]` document, path unchanged, and raises IndexError there |
| CacheRemoval.RemoveAllStopsAtEmptyList | src/nomad/__main__.py:248-281 | without `--empty`, once past the gate, rm deletes every file before the first `[]` document, in glob order, then raises IndexError |
| CacheRemoval.EmptyFlagDeletesScanned | src/nomad/__main__.py:252-254 | with `--empty`, once past the gate, the deleted paths are those the default-filter scan yields |
| CacheRemoval.RemoveEmptyFlagDeletesNonEmpty | src/nomad/__main__.py:252-254 | with `--empty`, over str/list/dict documents with distinct paths, a file is deleted exactly when its document is NON-empty |
| CacheRemoval.EmptyFlagKeepsTheEmptyFile | src/nomad/__main__.py:252-254 | `rm --empty --force` on `{}` and `{"k": null}` deletes only the second file |
| CacheRemoval.EmptyListStopsRemoveAll | src/nomad/__main__.py:250 | `rm --force` on `[]` then `{}` raises IndexError and deletes nothing |
| CacheRemoval.EmptyOnly | src/nomad/__main__.py:253 | the intended `--empty` filter accepts exactly `""`, `[]` and `{}`, and raises on the same documents as `len()` |
| CacheRemoval.SelectPaths | src/nomad/__main__.py:160-167 | selecting paths without normalising yields only paths of input files; which ones is stated by `SelectPathsStopsAt` |
| CacheRemoval.SelectPathsStopsAt | src/nomad/__main__.py:160-167 | any filter: the selection stops at the first file whose filter raises, with that exception, and selects the paths of the accepted files before it, in order |
| CacheRemoval.SelectAllPaths | src/nomad/__main__.py:250 | selecting with the accept-all filter selects every path, in order, with no exception |
| CacheRemoval.SelectPathsExactly | src/nomad/__main__.py:160-167 | with distinct paths and a filter that does not raise, a path is selected exactly when the filter accepts its document |
| CacheRemoval.RemoveIntended | src/nomad/__main__.py:242-281 | corrected rm aborts exactly when not forced and not confirmed, then deleting nothing; past the gate it deletes exactly the selected paths and ends with the selection's exception |
| CacheRemoval.RemoveIntendedDeletesEveryFile | src/nomad/__main__.py:248-250 | corrected rm without `--empty` deletes every file, in glob order, whatever the documents hold |
| CacheRemoval.RemoveIntendedDeletesEmpty | src/nomad/__main__.py:252-254 | corrected rm with `--empty` deletes exactly the files whose document is empty |
| RunnerParams.SanitizeRunnerParams | tests/test_main.py:15-36 | the loop produces the join, with `sep` (a single space unless given), of the tokens of all arguments in order |
| RunnerParams.RunCommandLine | tests/test_main.py:39-42 | `run_command` joins the tokens with the default separator, a single space |
| RunnerParams.ExtendWithElements | tests/test_main.py:26-29 | the inner loop appends the `str()` of each tuple element, in element order |
| RunnerParams.Str | tests/test_main.py:24-29 | Python's `str()` of an argument value, with numbers through `showNumber`; `ArgTokens` states where it is applied |
| RunnerParams.ArgTokens | tests/test_main.py:21-33 | `None` contributes no token, a single value its `str()`, and a tuple the `str()` of each element, in order |
| RunnerParams.Tokens | tests/test_main.py:18-33 | the arguments' tokens in order; there are as many as single values plus tuple elements |
| RunnerParams.Join | tests/test_main.py:36 | no tokens join to `""`, one token to itself, and n tokens to a text as long as the tokens plus n - 1 separators |
| RunnerParams.TokensAppend | tests/test_main.py:21-33 | the tokens of two argument lists in a row are the first list's tokens followed by the second's |
| RunnerParams.AbsentContributesNothing | tests/test_main.py:31-33 | a `None` argument contributes no token, wherever it stands |
| RunnerParams.SingleContributesOne | tests/test_main.py:22-24 | a non-tuple, non-`None` argument contributes exactly one token, its `str()`, in its place |
| RunnerParams.TupleContributesElements | tests/test_main.py:26-29 | a tuple contributes the `str()` of each element, in order, in its place; an empty tuple contributes nothing |
| RunnerParams.JoinAppend | tests/test_main.py:36 | two non-empty token lists joined in a row have exactly one separator between their joins |
| RunnerParams.SplitJoin | tests/test_main.py:36 | tokens without a one-character separator come back out of splitting their join on it |

## Left out

- `main`, `sync_main_flags` and the `cache` group are left out. They are click option parsing and context plumbing, with no logic of the repository's own.
- `geocode` and `download` are left out: they set the library's global settings and call the library's geocoder and downloader over the network. This includes the `--dry-run` echo of the location.
- `geocode --pretty-print` formatting is left out: it formats floats to 8 decimal places.
- The directory walk, `open`, `json.load` and `unlink` are inputs and outputs of the model. A JSON parse error is not modelled: the source does not handle it. The model also does not cover files that appear or vanish during the walk.
- `re.search` with IGNORECASE is the abstract predicate `matches`. An invalid pattern, which makes `re.search` raise, is not modelled.
- Python's `str()` of numbers is the abstract renderer `showNum` (`showNumber` in `RunnerParams`). Integers and floats share one `Num(real)` constructor, so `1` and `1.0` render alike.
- `click.confirm` is the boolean `confirmed`. The ` [y/N]: ` suffix click adds to the prompt and the `Aborted!` message are not modelled.
- JsonValue.Json: `Num` holds a real, so the `NaN`, `Infinity` and `-Infinity` constants that `json.load` accepts by default are not modelled.
- Duplicate keys in a JSON object are assumed already merged by the parser; an object is the ordered field list the parsed dict iterates over.
- Commands.Inspect: its own ensures only bounds the number of blocks. Its behaviour is stated by `InspectPrintsBlocks` and `InspectBlockCount`.
- Commands.Search: its own ensures only bounds the number of blocks. Its behaviour is stated by `SearchKeepsMatchingBlocks`, `SearchWithinInspect`, `SearchPrintsMatches`, `SearchStopsAtNonObject` and `SearchMatchingAllIsInspect`.
- Commands.Report: its own ensures only bounds the number of blocks. The lemmas about it state the rest.
- CacheData.GetCacheData: its own ensures only bounds the yield count and keeps paths when every file is yielded. Which files are yielded, in what order and where the scan stops is stated by `ScanWitness`.
- CacheRemoval.SelectPaths: its own ensures only says the selected paths are input paths. The filter, the order and the stop are stated by `SelectPathsStopsAt`.
- CacheRemoval.RemoveEmptyFlagDeletesNonEmpty: assumes distinct paths, as a directory walk lists each file once. The order of deletion follows from `EmptyFlagDeletesScanned` and `CacheData.DefaultScanKeepsNonEmpty`.
- `tests/conftest.py`, `tests/types.py` and the network tests are left out: they hold fixtures, type aliases and I/O. `tests/types.py` only shapes the `Arg` datatype.

## Findings

| source | as written | input that shows it | evidently intended | confidence | as-written member | corrected member |
|---|---|---|---|---|---|---|
| src/nomad/__main__.py:252-254 | `--empty` scans with the default filter `len(x) != 0`, which keeps non-empty documents | `a.json` = `{}`, `b.json` = `{"k": null}`, `cache rm --empty --force`: deletes `b.json`, keeps `a.json` | delete only the empty documents, as the prompt's scope "only empty JSON cached data" and the flag's help text say | high; not executed | CacheRemoval.EmptyFlagKeepsTheEmptyFile | CacheRemoval.RemoveIntendedDeletesEmpty |
| src/nomad/__main__.py:250 | rm scans through `get_cache_data`, which takes `[0]` of every list document although rm uses only the path | `a.json` = `[]`, `b.json` = `{}`, `cache rm --force`, when the walk lists `a.json` first: IndexError before any deletion | delete every cached file. With the first fix alone, `--empty` would raise at every `[]` file, the very files it targets | medium; not executed | CacheRemoval.EmptyListStopsRemoveAll | CacheRemoval.RemoveIntendedDeletesEveryFile |
