# logParser core, modelled in Dafny

The log-parsing SDK reads log files, asks a remote language model to turn each
entry into structured JSON, and writes the results as JSON or CSV. Three pieces
of sequential logic sit inside that I/O glue, and this project models them and
proves what they do:

- **The embedded-JSON extractor** (`ClaudeClient._extract_json_from_response`),
  module `JsonExtractor` in `json_extractor.dfy`.
  - It first takes the first "```json" fenced block, and returns its stripped
    content if that parses.
  - Otherwise it scans the whole reply with a bracket stack. A mismatched
    closer resets the scan, and the scan stops at the first closer that
    empties the stack. That one span is returned if it parses.
  - Otherwise it returns `"{}"`.
  - The scan is a method whose variables mirror the source's `stack`,
    `json_start` and `json_end`. It is proved against a state machine
    (`Step`/`RunTo`), and the state machine is characterised by the first
    balanced span (`FirstBalancedSpan`).
- **The CSV formatter** (`OutputFormatter.format_to_csv`), module
  `CsvFormatter` in `csv_formatter.dfy`.
  - Pass 1 collects the set of columns: a dictionary value under key `k`
    gives `k_s` for each sub-key `s`, any other value gives `k`.
  - `sorted()` orders the set. It is modelled as insertion into a strictly
    sorted sequence under Python's string order.
  - Pass 2 builds a `row` dictionary per record, where later assignments
    replace earlier ones.
  - The rows are then written by a `DictWriter`: `restval=""` fills missing
    cells, and `extrasaction="raise"` refuses unknown keys.
  - The methods follow the nested loops. The table they produce is specified
    by `IsCsvOf`.
- **The log-entry grouping** (the loop of `InputHandler.read_log_file`),
  module `LogGrouping` in `log_grouping.dfy`.
  - Each line is stripped, and blank lines are skipped.
  - Braces are counted character by character, and each line is appended to
    the current block.
  - The block is flushed as one `"\n"`-joined entry once a `{` has been seen
    and the count is back to zero. The count is never reset.
  - The loop is proved against the state machine `FeedStripped`/`FeedLines`.
  - What the grouping does overall is proved about that state machine: the
    entries cut the non-blank lines into pieces, each closing at its first
    chance.

`text.dfy` (module `Text`) holds Python's `str.strip()`, `"\n".join` and
`str.split("\n")`. `wrappers.dfy` holds `Option`.

`json.loads` is not modelled. Every extractor operation takes it as a parameter
`loads: string -> bool`, meaning "this text parses as JSON". Where the result
must parse, the lemma assumes only `loads("{}")`.

Two notes on the source:

- The test at `log_parser_sdk/tests/test_input_handler.py:19-21` expects one
  entry per line for a file without braces. The code joins all such lines into
  a single entry. The model follows the code (`NoOpenBraceOneEntry`).
- Two branches of the source can never run, and the model proves this instead
  of modelling them as live:
  - the `elif json_start != -1` branch of the scan (`claude_client.py:49-50`):
    `ScanForSpan` keeps the invariant that `json_start == -1` exactly when the
    stack is empty;
  - the blank-line flush of the grouping loop (`input_handler.py:24-28`):
    see `BlankLineIsSkipped`.

## Model

| member | source | states |
|---|---|---|
| JsonExtractor.FindFrom | log_parser_sdk/claude_client.py:21 | the index found is an occurrence of the pattern at or after the start, with none before it; no index means no occurrence at all |
| JsonExtractor.FindFence | log_parser_sdk/claude_client.py:21 | group 1 of the fence pattern lies between the first opening marker and the first closing marker after it; there is no match exactly when no opening marker is followed by a closing marker |
| JsonExtractor.FenceAt | log_parser_sdk/claude_client.py:21 | with no backtick before an opening marker and none between it and a closing marker, the match is exactly the text between them |
| JsonExtractor.FencedContentOccurs | log_parser_sdk/claude_client.py:21-23 | the stripped fenced content is a contiguous part of the reply |
| JsonExtractor.FencedExample | log_parser_sdk/claude_client.py:21-23 | for `before + "```json\n" + content + "```" + after`, with no backtick in `before` or `content`, the fenced content is `content.strip()` |
| JsonExtractor.NoBacktickNoFence | log_parser_sdk/claude_client.py:21-22 | a reply without a backtick has no fenced block |
| JsonExtractor.ScanForSpan | log_parser_sdk/claude_client.py:33-54 | the loop keeps `json_start == -1` exactly when the stack is empty, and follows the scan state machine; a span is captured exactly when the scan closes; the span starts where the scan was idle and is the first balanced span from there |
| JsonExtractor.ClosedStaysClosed | log_parser_sdk/claude_client.py:52-54 | once a span is captured, the scan stops: later characters change nothing |
| JsonExtractor.OpenIsNesting | log_parser_sdk/claude_client.py:37-48 | while a candidate is open, the scan was idle just before its start, and the stack is exactly the bracket nesting of the text since the start; no prefix of that text has balanced |
| JsonExtractor.ClosingStep | log_parser_sdk/claude_client.py:42-54 | the closer that captures a candidate ends the first balanced span from the candidate's start |
| JsonExtractor.ClosedIsFirstBalanced | log_parser_sdk/claude_client.py:37-54 | a captured span starts where the scan was idle, is the first balanced span from there, and ends with a closer |
| JsonExtractor.FirstBalancedIsClosed | log_parser_sdk/claude_client.py:37-54 | conversely, a first balanced span that starts where the scan is idle is the span captured |
| JsonExtractor.ScanInSpan | log_parser_sdk/claude_client.py:37-54 | inside a first balanced span that starts where the scan is idle, the scan stays open with the nesting as its stack, and it closes at the span's end |
| JsonExtractor.NoOpenerIdle | log_parser_sdk/claude_client.py:37-50 | text without an opener leaves the scan idle: closers on an empty stack are ignored |
| JsonExtractor.ExtractJsonFromResponse | log_parser_sdk/claude_client.py:19-65 | the method computes `Extracted`: the fence first, then the single scanned span, then `"{}"`; its result is `"{}"` or a verbatim part of the reply that parses |
| JsonExtractor.ExtractedIsPartOfText | log_parser_sdk/claude_client.py:19-65 | the result is `"{}"` or a contiguous part of the reply, not re-serialised, that parses |
| JsonExtractor.ExtractedParses | log_parser_sdk/claude_client.py:56-65 | given only that `"{}"` parses, the result always parses |
| JsonExtractor.ExtractedPrefersFence | log_parser_sdk/claude_client.py:21-27 | when the stripped fenced content parses, it is the result |
| JsonExtractor.ExtractedFromScan | log_parser_sdk/claude_client.py:32-62 | otherwise a result other than `"{}"` is the first balanced span that starts where the scan of the whole reply is idle |
| JsonExtractor.CapturedSpanIsBalanced | log_parser_sdk/claude_client.py:52-57 | the captured span has at least two characters, starts with `{` or `[`, ends with `}` or `]`, and is balanced on its own |
| JsonExtractor.ExtractedSpanIsBalanced | log_parser_sdk/claude_client.py:52-60 | a result that comes from the scan is balanced, starts with an opener and ends with a closer |
| JsonExtractor.ScanDecides | log_parser_sdk/claude_client.py:32-62 | when the fence fails, the first balanced span that starts where the scan is idle decides the result: that span if it parses, else `"{}"` |
| JsonExtractor.ExtractFirstSpan | log_parser_sdk/claude_client.py:32-62 | the same for replies without a backtick |
| JsonExtractor.ExtractAfterStrayCloser | log_parser_sdk/claude_client.py:42-50 | closers before the first opener are ignored: after text without an opener, the first balanced span of the rest is tried |
| JsonExtractor.ExtractAfterMismatch | log_parser_sdk/claude_client.py:43-48 | an opener followed by a closer of the other kind resets the scan: the first balanced span of the rest is tried |
| JsonExtractor.MismatchResets | log_parser_sdk/claude_client.py:43-48 | a closer that does not match the innermost open bracket leaves the scan idle, however many brackets were open: the whole stack and the start are dropped |
| JsonExtractor.ExtractAfterDeepMismatch | log_parser_sdk/claude_client.py:43-48 | after any prefix that leaves a candidate open, a mismatched closer throws the whole candidate away, and the first balanced span of the rest decides the result |
| JsonExtractor.OpenBraceBracket | log_parser_sdk/claude_client.py:37-41 | `{[` leaves a candidate open at 0 with `[` innermost, so a `}` after it is a mismatch that drops the outer `{` too |
| JsonExtractor.RunToPrefix | log_parser_sdk/claude_client.py:37 | the scan state after a prefix does not depend on what follows it |
| JsonExtractor.ExtractTriesOneSpan | log_parser_sdk/claude_client.py:52-65 | only one span is validated: with `[x]` not parsing, `"[x] [1]"` gives `"{}"` even though `[1]` would parse |
| JsonExtractor.BraceSpan | log_parser_sdk/claude_client.py:37-54 | a `{`, then text without brackets (quotes included), then a `}` form the first balanced span, whatever follows |
| JsonExtractor.ExtractCountsQuotedBrackets | log_parser_sdk/claude_client.py:37-65 | quotes are not tracked: `{"k":"}"}` yields `"{}"` when its prefix `{"k":"}` does not parse |
| JsonExtractor.ExtractScansWholeTextAfterBadFence | log_parser_sdk/claude_client.py:28-37 | when the fenced content does not parse, the scan runs over the whole reply and a balanced span before the fence wins |
| JsonExtractor.ExtractPrefersFence | log_parser_sdk/claude_client.py:21-27 | a fenced block whose stripped content parses gives exactly that content |
| JsonExtractor.ExtractEmpty | log_parser_sdk/claude_client.py:56-65 | the empty reply gives `"{}"` |
| JsonExtractor.ExtractEmptyObject | log_parser_sdk/claude_client.py:37-65 | `"{}"` is a fixed point of the extractor, whatever the parser says |
| JsonExtractor.ExtractNoBrackets | log_parser_sdk/claude_client.py:37-65 | a reply without backticks or opening brackets gives `"{}"` |
| Text.Strip | log_parser_sdk/input_handler.py:22 | the stripped line occurs in the line with only whitespace before and after it, neither starts nor ends with whitespace, and is empty exactly when the line is all whitespace |
| Text.SplitJoin | log_parser_sdk/input_handler.py:25 | splitting a `"\n"`-join of lines without newlines on `"\n"` gives the lines back |
| LogGrouping.ReadLogFile | log_parser_sdk/input_handler.py:16-55 | the loop with its four variables computes `LogEntries`: the joined blocks of the grouping state machine, or the fallback lines when there are none |
| LogGrouping.ReadLine | log_parser_sdk/input_handler.py:22-44 | one pass of the loop body (strip, then skip, flush or count and append) moves the variables exactly as one step of the state machine |
| LogGrouping.CountBraces | log_parser_sdk/input_handler.py:31-36 | the character loop adds the number of `{` minus the number of `}`, and sets the flag exactly when the line holds a `{` |
| LogGrouping.StrippedNonBlankLines | log_parser_sdk/input_handler.py:54 | the fallback gives the stripped non-blank lines in order |
| LogGrouping.OnlyBracesCount | log_parser_sdk/input_handler.py:31-36 | only braces move the count: square brackets and other characters do not |
| LogGrouping.NoPendingFlush | log_parser_sdk/input_handler.py:40-44 | after every line, "a `{` seen and the count at zero" does not hold |
| LogGrouping.BlankLineIsSkipped | log_parser_sdk/input_handler.py:23-29 | so a blank line changes nothing: its flush never fires |
| LogGrouping.FeedStrippedKeepsOk | log_parser_sdk/input_handler.py:22-44 | each step keeps the grouping invariant: blocks cut the lines seen, the count is that of all lines seen, closed blocks closed at their first chance, and the current block has not closed |
| LogGrouping.FeedLinesOk | log_parser_sdk/input_handler.py:21-44 | the grouping invariant holds after every prefix of the lines |
| LogGrouping.GroupBlocksCloseAtFirstBalance | log_parser_sdk/input_handler.py:21-48 | the entries' blocks, flattened, are exactly the stripped non-blank lines in order; none is empty; each but the last closes (holds a `{` and brings the running count to zero) at its first chance; the last has not closed early |
| LogGrouping.FallbackIsEmpty | log_parser_sdk/input_handler.py:46-55 | there are no blocks exactly when there are no non-blank lines, so the fallback re-read always gives nothing |
| LogGrouping.EntriesSplitBack | log_parser_sdk/input_handler.py:21-48 | one entry per block, and splitting an entry on `"\n"` gives back its block's stripped lines |
| LogGrouping.NoOpenBraceOneEntry | log_parser_sdk/input_handler.py:31-48 | a file with no `{` gives one entry holding all its non-blank lines, or nothing when there are none |
| LogGrouping.StrayCloserExample | log_parser_sdk/input_handler.py:18-44 | the count is never reset: lines `}`, `{`, `}` give the entries `"}\n{"` and `"}"` |
| CsvFormatter.FormatToCsv | log_parser_sdk/output_formatter.py:23-51 | the result is the table `IsCsvOf` describes: nothing for no records; otherwise a strictly sorted header of exactly the collected columns, and one row per record, in order, as the writer writes it |
| CsvFormatter.CollectColumns | log_parser_sdk/output_formatter.py:26-35 | the nested loops collect exactly `AllColumns` |
| CsvFormatter.AllColumnsAre | log_parser_sdk/output_formatter.py:27-35 | a column is collected exactly when some pair of some record gives rise to it |
| CsvFormatter.RecordColumnsAre | log_parser_sdk/output_formatter.py:29-35 | a record's columns are exactly those its pairs give rise to |
| CsvFormatter.SubColumnsAre | log_parser_sdk/output_formatter.py:30-33 | a dictionary under `k` gives exactly `k_s` for its sub-keys `s`, and not `k` |
| CsvFormatter.SortColumns | log_parser_sdk/output_formatter.py:37 | `sorted(list(all_keys))` lists the set strictly ascending, each element once |
| CsvFormatter.InsertSorted | log_parser_sdk/output_formatter.py:37 | inserting a new string keeps the sequence strictly sorted and adds just that string |
| CsvFormatter.LessTotal | log_parser_sdk/output_formatter.py:37 | Python's string order is total on distinct strings |
| CsvFormatter.LessTransitive | log_parser_sdk/output_formatter.py:37 | Python's string order is transitive |
| CsvFormatter.LessIrreflexive | log_parser_sdk/output_formatter.py:37 | no string is below itself |
| CsvFormatter.SortedDistinct | log_parser_sdk/output_formatter.py:37 | a strictly sorted header has no duplicate column |
| CsvFormatter.SortedUnique | log_parser_sdk/output_formatter.py:37 | a set has only one strictly sorted listing, so the header does not depend on the set's iteration order |
| CsvFormatter.BuildRow | log_parser_sdk/output_formatter.py:44-50 | the loops build the dictionary of the record's assignments in order |
| CsvFormatter.MapOfLast | log_parser_sdk/output_formatter.py:44-50 | the row holds exactly the keys written, each with the value of its last assignment |
| CsvFormatter.RowKeys | log_parser_sdk/output_formatter.py:44-50 | a record's row has exactly the record's columns |
| CsvFormatter.RowFitsHeader | log_parser_sdk/output_formatter.py:27-51 | every key of a row is a column, so the writer never refuses a row |
| CsvFormatter.WriteRow | log_parser_sdk/output_formatter.py:51 | writing a record's row under the header succeeds |
| CsvFormatter.WriteRows | log_parser_sdk/output_formatter.py:42-51 | one row per record, in order, each as the writer writes that record's row |
| CsvFormatter.CsvUnique | log_parser_sdk/output_formatter.py:27-51 | the output is determined by the records |
| CsvFormatter.RowInTable | log_parser_sdk/output_formatter.py:43-51 | row `i` is record `i`'s row dictionary written under the header |
| CsvFormatter.CellMeaning | log_parser_sdk/output_formatter.py:40-51 | a cell is blank exactly when no pair of the record gives rise to its column; otherwise it holds the last value the record assigns to that column |
| CsvFormatter.FlatRow | log_parser_sdk/output_formatter.py:45-50 | a record of plain values with distinct keys is its own row: values are placed unchanged under their keys |
| CsvFormatter.FlatRecordRoundTrip | log_parser_sdk/output_formatter.py:43-51 | such a record comes back from the table: each pair is found under its column, and every filled cell is one of its pairs |
| CsvFormatter.CollidingColumnsExample | log_parser_sdk/output_formatter.py:44-50 | a flat `a_b` and a nested `a`→`b` share one column, and the assignment made last in key order wins, in either order |
| CsvFormatter.NestingExamples | log_parser_sdk/output_formatter.py:30-50 | an empty dictionary value gives no column and no cell; a dictionary two levels down stays whole as one cell's value |
| CsvFormatter.ExampleHeader | log_parser_sdk/output_formatter.py:37 | the only strictly sorted listing of `a`, `b_x`, `b_y` is that one |
| CsvFormatter.TwoRecordsExample | log_parser_sdk/output_formatter.py:23-51 | `[{"a": 1, "b": {"x": 2, "y": 3}}, {"a": 4, "b": {"x": 5}}]` gives the header `a, b_x, b_y` and the rows `1, 2, 3` and `4, 5, ""` |

## Left out

- The HTTP request to the remote model, its retry and backoff, the prompts and
  the unpacking of responses (`claude_client.py:67` onwards): network I/O
  through libraries outside this model.
- `log_parser.py`, which chains the remote call, `json.loads`/`json.dumps` and
  the error handler, is not part of this model. Neither is `error_handler.py`
  (print and re-raise).
- `json.loads` is a parameter (`loads`), not a parser. Decoding the parsed
  JSON into records is not modelled: `CsvFormatter` starts from parsed values.
- The warning printed before the extractor returns `"{}"` (output only).
- From `input_handler.py`:
  - checking that the file exists, opening it and reading it: `ReadLogFile`
    takes the lines `content.splitlines()` gives;
  - packet-capture reading, the directory walk and `read_log_entry`.
  - The fallback at lines 53-55 re-reads the file with `for line in f`, which
    splits only at `"\n"`. `splitlines()` also splits at other line boundaries,
    and all of them are whitespace. The model reads the same lines again. This
    does not matter: the fallback only runs when every line is blank, and then
    both give nothing (`FallbackIsEmpty`).
- From `output_formatter.py`:
  - the `output_file` branch (lines 53-56), which writes to disk and returns
    `None`;
  - `format_to_json` and `format_list_to_json`, which only call `json.dumps`.
- CsvFormatter.FormatToCsv: records are dictionaries only. An item that is
  not a dictionary (a JSON array, which the extractor can return, or a scalar)
  makes `item.items()` at `output_formatter.py:29` raise `AttributeError`, and
  the model's record type rules that path out.
- CsvFormatter.FormatToCsv: the table keeps each cell's value as a JSON value,
  not as text. The writer's `str()` rendering of values, its quoting and its
  line endings are not modelled. `Blank` is the `restval` empty field, but the
  writer also writes `None` as an empty field, so in the CSV text a
  `Filled(Null)` cell cannot be told from a `Blank` one. `CellMeaning` speaks
  of the table's `Blank`, not of an empty field in the text.
- CsvFormatter: JSON numbers are modelled as `real`, and Python's distinction
  between `int` and `float` is not kept. A record is the list of its
  (key, value) pairs in dictionary order. The model does not require the keys
  to be distinct, which `json.loads` guarantees.
- Text: Python's `str.isspace()` is written out for the characters it accepts,
  and nothing else of Unicode is modelled. Characters are Dafny `char`s.
- The loop body of `read_log_file` is a method of its own,
  `ReadLine`, which strips the line and then updates the four variables. The
  order of the operations is the source's.
