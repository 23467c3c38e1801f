# Reader: a verified model of the page extractor

Reader is a small local web service for reading a large plain-text book a
few lines at a time. Its one piece of real logic is `read_file_by_page`.
Given a 1-based page number and a page size, it returns the page-th window
of the book's non-blank lines. When the "mark line break" flag is set, each
blank line read before the scan stops, once a line has been collected,
becomes the suffix `"  n"` on the last line collected so far. The scan stops
at the first non-blank line past the page, so blank lines after that point
mark nothing. The service also reads a `key=value` configuration file (`load_cfg`)
and turns flag values into booleans (`string_to_bool`).

The project has four modules:

- `Text` (`text.dfy`) holds the string operations the source relies on:
  - `str.strip()` over Python's whitespace set;
  - the blank-line test `not line.strip()`;
  - `str.lower()` on ASCII letters.
- `Paginator` (`paginator.dfy`) holds the extractor.
  - `ScanPage` is the source's loop, written as a `while` loop with `break` and `continue`. It is proved equal to a reference definition, `Page`.
  - `Page` is built from `Runs`: each non-blank line of the file paired with the number of blank lines directly after it. A page is a window of runs starting at `StartLine = (pageNumber - 1) * pageSize`. Each run is rendered as its text plus one marker per blank line when marking.
  - `ReadFileByPage` adds argument validation and the file-level errors.
- `PageFacts` (`page_facts.dfy`) states what a page is without the loop:
  - which line sits at each position;
  - the page's length;
  - the effect of one more blank line;
  - the irrelevance of the rest of the file after the stop point;
  - how consecutive pages tile the non-blank lines.
- `Config` (`config.dfy`) holds the `load_cfg` loop and `string_to_bool`. `LoadCfg` is a `for` loop over the lines that updates a map. It is proved equal to `Store(config, Entries(lines))`: the entries the lines contribute, stored in order. The lemmas state which keys end up in the map and with which value.

The file is an already-decoded `seq<string>` of lines, each without its
trailing `'\n'`. Whether the path exists and whether reading fails are part
of the `Source` input: `Missing`, `Unreadable(cause)` or `Lines(lines)`. The
process-global mark flag is an explicit parameter. The map `CONFIG_MAP` that
`load_cfg` updates is the `config` parameter on entry and the result on exit.

## Model

| member | source | states |
|---|---|---|
| Paginator.ReadFileByPage | web.py:68-109 | a page number or page size below 1 gives `InvalidPage`, checked first; otherwise a path that is blank after stripping gives `BlankPath`; next a missing file gives `FileNotFound(path)` and a read failure gives `ReadFailed(cause)`; otherwise the result is `Ok` of the page |
| Paginator.Page | web.py:83-104 | the reference definition of a page: the rendered window of runs starting at `StartLine`; never more than `page_size` lines |
| Paginator.StartLine | web.py:83-84 | `start_line = (page_number - 1) * page_size`, so that page `page_number`'s window ends just before `page_number * page_size`, where the next page starts |
| Paginator.ScanPage | web.py:83-104 | the loop's result is exactly `Page`, the rendered window of runs; it stops at the non-blank line whose 0-based non-blank index is `end_line + 1`, or at the end of the file when the file has no more than `end_line + 1` non-blank lines |
| Paginator.LeadingBlanksSpec | web.py:92-96 | the blank count of a run covers exactly the blank lines up to the next non-blank line |
| Paginator.NonBlankIsFilter | web.py:92-99 | the non-blank line sequence holds no blank line, and is empty only when every line is blank |
| Paginator.RunsMatchNonBlank | web.py:92-104 | the texts of the runs are the non-blank lines, in the same number and order |
| Paginator.RunsSnoc | web.py:92-104 | reading one more line: a blank line adds one to the blank count of the last run, and a non-blank line opens a new run with count 0 |
| Paginator.RunsAppend | web.py:101-102 | the runs of a file split wherever the second part starts with a non-blank line |
| Paginator.BlankStep | web.py:92-96 | before the stop point, a blank line leaves the rendered window as it was, except that with marking on and a non-empty window it appends one marker to the last line; the non-blank counter does not move |
| Paginator.NonBlankStep | web.py:98-104 | a non-blank line below `end_line + 1` adds one to the counter and is appended to the window exactly when its index is at least `start_line` |
| Paginator.StopStep | web.py:101-102 | at the first non-blank line past the window, the page of the whole file equals the page of the lines read before it |
| PageFacts.NonBlankPos | web.py:98-104 | the raw position of the j-th non-blank line: that line is non-blank, and exactly j non-blank lines come before it |
| PageFacts.RunAt | web.py:92-104 | the j-th run is the j-th non-blank line, paired with the number of blank lines right after it |
| PageFacts.PageAt | web.py:83-104 | line i of a page is, verbatim, the non-blank line with non-blank index `start_line + i`; with marking on, it carries one `"  n"` per blank line directly after it in the file |
| PageFacts.PageWithoutMarks | web.py:83-104 | with marking off, a page is exactly the slice of non-blank lines from `start_line` to `end_line`, clipped at the end of the file |
| PageFacts.PageLength | web.py:83-99 | a page holds at most `page_size` lines; it is shorter only when the non-blank lines run out before `end_line`; it is empty exactly when `start_line` is at or past the number of non-blank lines, which is not an error |
| PageFacts.PageAppendBlank | web.py:92-96 | a blank line leaves a page unchanged, except that with marking on, a non-empty page and the stop point not yet reached, it appends one marker to the last element; length and other elements stay the same |
| PageFacts.PageIgnoresTail | web.py:101-102 | once the file has `end_line + 1` non-blank lines, whatever follows from the next non-blank line on does not change the page |
| PageFacts.PagesAreTiles | web.py:83-104 | unmarked pages 1 to k, concatenated, are the first k windows of the non-blank lines |
| PageFacts.TilesArePrefix | web.py:83-84 | the first k windows of size `page_size` cover the first `k * page_size` elements, without gaps, overlaps or reordering |
| PageFacts.PagesConcat | web.py:83-104 | unmarked pages 1 to k, concatenated, are the first `k * page_size` non-blank lines; when that covers them all, the result is exactly the non-blank line sequence, with no duplicates or omissions |
| PageFacts.PageExamples | web.py:92-104 | on `["a", "", "b"]` with page size 2: page 1 marked is `["a  n", "b"]`, page 1 unmarked is `["a", "b"]`, and page 2 is empty |
| PageFacts.TrailingBlankExamples | web.py:92-96 | a line of spaces counts as blank, and a blank line at the end of the file still marks the last collected line |
| PageFacts.StopExample | web.py:101-102 | on `["a", "", "b", "", "c"]` with page size 1, page 1 is `["a  n"]`: the blank line after `b` comes after the stop point and marks nothing |
| Text.TrimStartSpec | web.py:92 | left-stripping drops exactly the leading whitespace |
| Text.TrimEndSpec | web.py:92 | right-stripping drops exactly the trailing whitespace |
| Text.StripSpec | web.py:122 | `strip()` keeps the slice between the leading and the trailing whitespace; everything cut off is whitespace; a non-empty result starts and ends with a non-space character |
| Text.Strip | web.py:92 | `str.strip()`: never longer than its input; empty exactly when the input is blank, which is the test `not line.strip()`; otherwise it starts and ends with a non-space character |
| Text.StripUnchanged | web.py:122 | text that neither starts nor ends with whitespace is its own strip |
| Text.ToLower | web.py:133 | lowering keeps the length and lowers each ASCII capital letter in place |
| Text.LowerChar | web.py:133 | a capital ASCII letter becomes a different character whose upper case is the original letter; every other character stays the same |
| Config.FirstIndex | web.py:126 | the position of the first `=`: it holds `=` and no earlier position does |
| Config.ParseLine | web.py:122-127 | a line contributes nothing exactly when its stripped form is empty, starts with `#` or has no `=`; otherwise the key contains no `=` |
| Config.ParseLineSplit | web.py:125-127 | when the stripped line is `k + "=" + v` with no `=` in `k`, it maps `k.strip()` to `v.strip()`; `v` may contain further `=` |
| Config.LoadCfg | web.py:121-127 | the loop leaves the map equal to the starting map with the lines' entries stored in file order |
| Config.StoreKeys | web.py:127 | after storing entries, a key is present exactly when it was present before or some entry sets it |
| Config.StoreLastWins | web.py:127 | the value of a key is the one from the last entry that sets it |
| Config.StoreUntouched | web.py:127 | a key that no entry sets keeps its presence and its value |
| Config.ConfigKeys | web.py:121-127 | after reading a file, a key is present exactly when it was present before or some line of the file sets it |
| Config.ConfigLastWins | web.py:121-127 | a later line that sets a key overwrites every earlier one |
| Config.ConfigUntouched | web.py:121-127 | a key that no line sets keeps its old value, or stays absent |
| Config.AssignmentExample | web.py:122-127 | `"size=5"` maps `size` to `5` |
| Config.FirstEqualsExample | web.py:126 | `"url=a=b"` maps `url` to `a=b`: only the first `=` splits |
| Config.SkippedLineExamples | web.py:123-125 | a `#` line, a line without `=` and an empty line contribute nothing |
| Config.StringToBool | web.py:132-134 | `string_to_bool(s)` holds exactly when `s` is `true`, `1` or `yes` in any mix of letter cases |
| Config.StringToBoolTrueExamples | web.py:132-134 | `True`, `YES`, `1` and `true` are true |
| Config.StringToBoolFalseExamples | web.py:132-134 | `false`, the empty string, ` true` and `0` are false |

## Left out

- The Flask application, its routes, templates and JSON responses: HTTP plumbing around the extractor.
- The Windows single-instance mutex, the message box and the console hiding through `ctypes`: foreign operating-system calls.
- `init`, which sets process globals and starts the server. It is not modelled; only its defaults are noted here: page size 5, marking off, port 8996. The `int()` conversion of configuration strings is not modelled either.
- File I/O is an input value, not an operation:
  - `os.path.exists` is the `Missing` case of `Source`.
  - Opening, UTF-8 decoding and newline translation are done before the model begins; the lines arrive already split, without their `'\n'`.
  - The `IOError` that the source wraps into a `RuntimeError` is `Unreadable(cause)`.
- ReadFileByPage: a read failure is all-or-nothing. The source reads lazily, so a failure after the stop point never surfaces there, but with `Unreadable` the model always fails.
- A decoding error is not an `IOError` in Python, so the source lets it escape unwrapped. The model has no separate case for it.
- The error messages of the exceptions are not modelled, only which error is raised and its payload (the path, the cause).
- The `file_path is None` test: a Dafny string cannot be absent.
- The configuration file's location (next to the executable when frozen) and the message printed when it is missing. A missing file leaves the map unchanged, as `LoadCfg` does for an empty line list.
- StringToBool, Text.ToLower: `str.lower()` is modelled on ASCII letters only. For `string_to_bool` this is exact: no non-ASCII character lowers to a string made only of the letters of `true`, `1` and `yes`.
- Whitespace is the fixed set of characters for which Python's `str.isspace()` holds. Unicode tables beyond that set are not modelled.
