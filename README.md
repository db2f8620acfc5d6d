# tsdatafaker, modelled in Dafny

tsdatafaker re-emits a `.dat` time-series text file in small pieces, as a slow data
logger would. It keeps the first `header_size` lines as a header. Each time the
consumer is ready, it writes a new output file: the header, then the next
`increment` data lines. "Ready" means a fixed delay has passed when overwriting, or
otherwise the consumer has deleted the previous output file. Blank lines can be
skipped. A run file can override the command-line settings with `key = value` lines.
Those values use backslash escapes and optional quotes, and each is converted to the
type the setting already has.

The project models the two sequential components:

- **The incremental emitter** (`tsdatafaker.dfy`, module `TsDataFaker`).
  - `process` and its nested `read_single_line` are imperative Dafny with the same
    loops and counters. The input file is a class with a read cursor; `readline`
    returns `""` at end of file.
  - The output is a trace of events. Before each batch there is one handshake: a
    sleep in overwrite mode, otherwise a wait until the output file is removed. Each
    batch is one `Write` of the lines put into the fresh output file.
  - `Process` is proved equal to a reference definition. That definition takes the
    header lines (`HeaderLines`) and the kept data lines (`DataLines`), cuts the data
    into chunks of `increment` (`Chunks`), and emits one handshake and one
    header-plus-chunk per chunk (`Emission`).
  - The batch count, sizes, contents and order are lemmas about that reference.
  - `positive_int_type` is a pure function.
- **The run-file overlay**. `replace_multiple` is modelled in `replace.dfy`
  (module `Replace`) as a pure function.
  - Its left-to-right scan has an ordered list of alternatives, sorted longest first.
  - The line regular expression is written as a deterministic scanner
    (`runfileline.dfy`, module `RunFileLine`). The key backtracks until an `=` can
    follow; the value is the greedy series of runs.
  - `process_run_file` is imperative (`runfileargs.dfy`, module `RunFileArgs`). It
    loops over the lines and updates a `Namespace` object's field map in place by
    `SetAttr`. It is proved against `ApplyLines`, the fold of one-line effects
    (`ApplyLine`). Those effects are composed of `MatchLine`, `FieldValue` (strip,
    unescape, unquote) and `Coerce`.
- `common.dfy` (module `Common`) holds `Option`, `Result` and the Python exceptions
  raised: `ValueError`, `ArgumentTypeError`, `AssertionError` and `KeyError`.

Environment dependencies are parameters:
- Python's `int()` and `float()` are partial functions (`string -> Option<...>`).
- The file system seen by `process_run_file` is a map from path to the file's lines.
- The input file of `process` is its sequence of lines.

## Model

| member | source | states |
|---|---|---|
| TsDataFaker.PositiveIntType | tsdatafaker.py:34-38 | Ok exactly when `int(x)` succeeds with a value of at least 1, and then it is that value; a value below 1 gives `ArgumentTypeError("Minimum value is 1")`; an unparsable string gives `ValueError` |
| TsDataFaker.InputFile.ReadLine | tsdatafaker.py:71 | `readline`: the line at the cursor and the cursor advanced, or `""` with the cursor kept at end of file |
| TsDataFaker.ReadSingleLine | tsdatafaker.py:70-75 | the returned line is the next kept line (never a blank one when skipping), or `""` only at end of file; the skipped blank lines are added to the counter, so the kept lines after it and the count stay in step with the cursor |
| TsDataFaker.ReadHeader | tsdatafaker.py:85-87 | the header is `HeaderLines` of the file, and the cursor stands after it |
| TsDataFaker.WriteBatch | tsdatafaker.py:100-107 | the content written is the header followed by the next `increment` data lines, or the remaining ones when the data runs out first; the counters advance by exactly what was written and skipped |
| TsDataFaker.EmitBatches | tsdatafaker.py:89-107 | the loop emits exactly `Emission(header, Chunks(data, increment))`; `lines` ends as the number of data lines and `empty` as the number of skipped lines |
| TsDataFaker.Process | tsdatafaker.py:68-113 | returns the number of kept data lines and the number of skipped blank lines, and performs exactly the reference trace: one handshake and one header-plus-chunk write per chunk of `increment` data lines |
| TsDataFaker.HeaderShape | tsdatafaker.py:85-87 | the header has exactly `header_size` entries: the first lines of the file, blank ones included, then `""` past end of file |
| TsDataFaker.KeptFilters | tsdatafaker.py:70-75 | the kept and skipped lines add up to all data lines; exactly the lines other than `\n` and `\r\n` are kept when skipping (other whitespace lines remain); without skipping nothing is removed and the count stays 0 |
| TsDataFaker.ChunksFlatten | tsdatafaker.py:102-107 | the chunks concatenate to the data lines in order |
| TsDataFaker.ChunksCount | tsdatafaker.py:90-107 | there are ceil(N / K) chunks for N data lines and increment K |
| TsDataFaker.ChunksSizes | tsdatafaker.py:102-107 | every chunk holds 1..K lines, and every chunk but the last exactly K |
| TsDataFaker.LastChunkSize | tsdatafaker.py:102-107 | the last chunk holds N mod K lines, or K when K divides N |
| TsDataFaker.EmissionShape | tsdatafaker.py:91-101 | the trace alternates: one handshake, then one write of header plus chunk, for each chunk in turn, the first included |
| TsDataFaker.EmissionBatches | tsdatafaker.py:100-101 | the successive output files are header plus chunk, one per chunk |
| TsDataFaker.BodiesAfterHeader | tsdatafaker.py:100-107 | removing the header from each batch gives back the chunks |
| TsDataFaker.EmitterTheorem | tsdatafaker.py:89-113 | for any header and data: ceil(N/K) batches, each preceded by one handshake, each beginning with the complete header, all but the last with K data lines and the last with the remainder (1..K), bodies concatenating to the data; no data means no handshake and no batch |
| TsDataFaker.EmitterExample | tsdatafaker.py:68-113 | a four-line header with data `a`, blank, `b`, skipping blanks and one line per batch, gives two sleeps and the batches header+`a` and header+`b`, and one skipped line |
| Replace.Keys | run_file_args.py:5 | the keys of the dictionary, in insertion order |
| Replace.Lookup | run_file_args.py:11 | `replacements[k]` is defined exactly for the keys, and is the value paired with `k` |
| Replace.SortByLengthSorted | run_file_args.py:5 | `sorted(..., key=len, reverse=True)` orders the keys by decreasing length and is a permutation of them |
| Replace.Pattern | run_file_args.py:5-8 | with a non-empty dictionary the alternatives of the compiled pattern are exactly its keys, longest first; with an empty one the pattern is `''`, the one empty alternative |
| Replace.FirstMatch | run_file_args.py:8-11 | the alternative that matches at a position is an alternative that starts there, none matching means none starts there, and with longest-first alternatives it is a longest key starting there |
| Replace.Sub | run_file_args.py:8-11 | the substitution fails only with `KeyError(k)` for a matched alternative `k` that has no value in the dictionary |
| Replace.ReplaceMultiple | run_file_args.py:1-11 | fails exactly when the dictionary is empty, and then with `KeyError('')`: the empty pattern matches and the empty key has no value |
| Replace.ReplaceAtLongestKey | run_file_args.py:1-11 | where `k` is the longest key starting at the scan position, it is replaced by its value and the scan resumes after it, so replaced text is never rescanned |
| Replace.ReplaceWithoutKey | run_file_args.py:8-11 | where no key starts, the character is copied and the scan moves on by one |
| Replace.ReplaceAtEnd | run_file_args.py:8-11 | at the end of the string the scan stops (no empty key) |
| Replace.NoKeyUnchanged | run_file_args.py:8-11 | a string in which no key occurs comes back unchanged |
| Replace.CopyPrefix | run_file_args.py:8-11 | a prefix with no key starting inside it is copied unchanged, and the rest is scanned from where it ends |
| Replace.ReplaceShortens | run_file_args.py:1-11 | when every key is non-empty and no value is longer than its key, the result is no longer than the input |
| Replace.ExamplePattern | run_file_args.py:2-5 | for `{'ab': 'AB', 'abc': 'ABC'}` the alternatives are `abc` then `ab` |
| Replace.LongerKeyWins | run_file_args.py:2-5 | `'abc'` becomes `'ABC'`: the longer key wins where both match |
| Replace.LongestKeyExample | run_file_args.py:2-5 | `'hey abc'` becomes `'hey ABC'`, not `'hey ABc'` |
| RunFileLine.SkipSpace | run_file_args.py:20 | `\s*`: the first position at or after `i` that is not whitespace, with only whitespace in between |
| RunFileLine.TokenLen | run_file_args.py:20 | an element of an unquoted run (an escape or a plain character) is at most two characters and lies within the line; that only the five escapes count, and that a backslash before any other character starts none, is stated by `EndsValueStops` |
| RunFileLine.KeyRunEnd | run_file_args.py:20 | `[^\s!#]*` taken greedily: the end of the run of key characters |
| RunFileLine.KeyEnd | run_file_args.py:20 | the backtracking into the key: the largest end at or before the greedy one after which `\s*=` matches, or none when there is no such end |
| RunFileLine.KeyMatch | run_file_args.py:20 | a key is found exactly when some end in the key run is followed by `\s*=`, and it is the last such end |
| RunFileLine.ValueStart | run_file_args.py:20 | the value starts past the `=`, past a second `=` when one follows it directly, and past the whitespace after them; everything it skips after the first `=` is whitespace or that second `=`; it starts at a non-space character or the end of the line |
| RunFileLine.UnquotedEnd | run_file_args.py:20 | the series of escapes and plain characters of an unquoted run ends where no further element starts, and holds no whitespace |
| RunFileLine.QuotedEnd | run_file_args.py:20 | the body of a run quoted by `q` ends at a position where neither an escape of `q` or `\` nor a character other than a quote or backslash starts |
| RunFileLine.RunEnd | run_file_args.py:20 | a run of the value ends past its start, starts only at a quote, a backslash or a plain character, and ends (after its trailing whitespace) at the end of the line or a non-space character |
| RunFileLine.ValueEnd | run_file_args.py:20 | the value ends where no further run starts; a non-empty value ends at the end of the line or before a non-space character |
| RunFileLine.MatchLine | run_file_args.py:19-24 | a line matches exactly when a key end is found; the key is the text from the first non-space character to that end, and it holds no whitespace, `!` or `#` |
| RunFileLine.NoEqualsNoMatch | run_file_args.py:20-24 | a line without `=` does not match |
| RunFileLine.CommentNoMatch | run_file_args.py:20-24 | a line whose first non-space character is `#` or `!` does not match |
| RunFileLine.DoubleEqualsInKey | run_file_args.py:20 | `a==b` yields the key `a=` and the value `b` |
| RunFileLine.SpacedDoubleEquals | run_file_args.py:20 | `a == b` yields the key `a` and the value `b` |
| RunFileLine.IncrementLine | run_file_args.py:20 | `increment = 3` with its newline yields the key `increment` and the raw value `3` plus the newline |
| RunFileLine.UnquotedEndEscaped | run_file_args.py:20 | an unquoted run over the escaped form of a word without whitespace takes in exactly that escaped form when whitespace, the end, or one of `! # \ ' "` not starting an escape follows |
| RunFileLine.ValueEndEscaped | run_file_args.py:20 | the value over the escaped form of `v` and trailing whitespace ends exactly there when what follows is the end, an unescaped `!` or `#`, a backslash before a character it cannot escape, or a quote never closed |
| RunFileLine.EscapedLine | run_file_args.py:19-24 | the line `k = ` + escaped `v` + whitespace + (the end, a comment sign, a stray backslash or a quote never closed) matches with the key `k` and the raw value the escaped `v` with its trailing whitespace |
| RunFileLine.CommentEndsValue | run_file_args.py:20 | in `k = p # c` an unescaped `#` ends the value: the raw value is `p` and the space before `#` |
| RunFileLine.NeverClosedStops | run_file_args.py:20 | over a rest of the line that meets the other quote or the end before any `q` or backslash, the body of a run quoted by `q` stops short of a closing `q` |
| RunFileLine.EndsValueStops | run_file_args.py:20 | no run starts at the end, at an unescaped `!` or `#`, at a backslash before a character it cannot escape, or at a quote never closed, so the value ends there |
| RunFileLine.QuotedEndEscaped | run_file_args.py:20 | the body of a run quoted by `q` over `y` written with a backslash before each `q` and `\` (and no other quote in `y`) ends exactly before the closing `q` |
| RunFileLine.QuotedValueEnd | run_file_args.py:20 | the value over such a quoted run, trailing whitespace and then what ends a value ends exactly there |
| RunFileLine.QuotedLine | run_file_args.py:19-24 | the line `k = "y"` (quotes and backslashes of `y` escaped) + whitespace + what ends a value matches with the key `k` and the raw value the whole quoted run with its trailing whitespace; `#`, `!` and spaces inside the quotes stay in it |
| RunFileLine.EmptyValueLine | run_file_args.py:19-24 | `k = T`, with `T` starting with a comment sign, a stray backslash or a quote never closed, matches with the key `k` and an empty raw value |
| RunFileLine.StrayBackslashEndsValue | run_file_args.py:20 | `p = C:\dir` has the raw value `C:`: `\d` is not an escape |
| RunFileLine.BareQuoteEndsValue | run_file_args.py:20 | `k = it's` has the raw value `it`: the quote is never closed |
| RunFileLine.UnclosedQuoteEmpty | run_file_args.py:20 | `k = "it's"` has an empty raw value: a `'` cannot stand inside `"` quotes, so the run never closes |
| RunFileLine.QuotedHashKept | run_file_args.py:20 | `k = "a # b"` and its newline has the raw value `"a # b"` and the newline: a `#` inside quotes does not end the value |
| RunFileArgs.UnescapeKeys | run_file_args.py:26 | every key of the unescaping dictionary is a backslash and one character |
| RunFileArgs.UnescapeLookup | run_file_args.py:26 | each escape of `! # \ ' "` maps to the character it escapes |
| RunFileArgs.UnescapeEscapeWith | run_file_args.py:26-31 | with any dictionary that decodes the five escapes, unescaping the escaped form of a string gives the string back |
| RunFileArgs.UnescapeEscape | run_file_args.py:26-31 | unescaping with the five-entry dictionary inverts escaping: a backslash before each of `! # \ ' "`, then `replace_multiple`, gives the original string |
| RunFileArgs.UnescapeQuotedWith | run_file_args.py:26-31 | with any dictionary that decodes the five escapes, unescaping the quoted-run form of `y` and its closing quote gives `y` and the quote |
| RunFileArgs.UnescapeQuoted | run_file_args.py:26-31 | unescaping a whole quoted run `"` + quoted-run form of `y` + `"` gives `y` between the quotes |
| RunFileArgs.StripShape | run_file_args.py:31 | `strip()` removes whitespace only, and only from the two ends |
| RunFileArgs.Strip | run_file_args.py:31 | `strip()` never lengthens, and leaves no whitespace at either end |
| RunFileArgs.StripKeeps | run_file_args.py:31 | a value without whitespace at its ends is not changed by `strip()` |
| RunFileArgs.StripQuotes | run_file_args.py:32-33 | a value not beginning and ending with the same quote is kept; a quoted value of two or more characters is the result wrapped in that quote; a lone quote becomes empty |
| RunFileArgs.StripOnePair | run_file_args.py:32-33 | exactly one outer pair of matching quotes is removed, whatever is inside |
| RunFileArgs.FieldValueOfEscaped | run_file_args.py:31-33 | an escaped value reads back as that value less one outer pair of quotes: quotes are removed after unescaping, so even escaped outer quotes go |
| RunFileArgs.FieldValue | run_file_args.py:31-33 | the field's string is never longer than the raw value |
| RunFileArgs.EscapedQuotesStillStripped | run_file_args.py:31-33 | `\'x\'` (escaped quotes around `x`) reads back as `x`: the quotes are tested after unescaping |
| RunFileArgs.EscapedLineReadsBack | run_file_args.py:20-33 | a line `k = ` + escaped `v` + whitespace + what ends a value assigns the key `k` the value `v` less one outer pair of quotes |
| RunFileArgs.QuotedRawReadsBack | run_file_args.py:31-33 | the raw value of a quoted run over the quoted-run form of `y`, with trailing whitespace, reads back as exactly `y` |
| RunFileArgs.PlainQuotedReadsBack | run_file_args.py:31-33 | a quoted value whose body has neither its quote nor a backslash, with trailing whitespace, reads back as its body |
| RunFileArgs.QuotedLineReadsBack | run_file_args.py:20-33 | a line `k = "y"` (quotes and backslashes of `y` escaped) + whitespace + what ends a value assigns the key `k` exactly `y` |
| RunFileArgs.QuotedHashField | run_file_args.py:20-33 | `k = "a # b"` and its newline gives the field string `a # b` |
| RunFileArgs.Coerce | run_file_args.py:27-39 | a new field becomes the string; a string field becomes the string; a bool field becomes true exactly for `true`, `yes` and `1`; an int or float field fails, with `ValueError`, exactly when `int()` or `float()` does, and otherwise holds what it returned; a list field becomes the list of characters; an existing field keeps its type |
| RunFileArgs.ApplyLine | run_file_args.py:22-39 | a line that does not match leaves the fields as they are; a failure is a `ValueError`; no field is removed |
| RunFileArgs.ApplyLineFrame | run_file_args.py:27-39 | a matching line sets the field its key names to the coerced field value and leaves every other field as it was |
| RunFileArgs.ApplyLineTypes | run_file_args.py:27-39 | a known key keeps its value's type; an unknown key is stored as the string value; a failure is a `ValueError` |
| RunFileArgs.EscapedLineAssigns | run_file_args.py:20-39 | a line `k = ` + escaped `v` over a string or new field `k` sets it to `v` less one outer pair of quotes |
| RunFileArgs.QuotedLineAssigns | run_file_args.py:20-39 | a line `k = "y"` over a string or new field `k` sets it to exactly `y` |
| RunFileArgs.ApplyLines | run_file_args.py:22-39 | the lines applied in order: an error that stops the run is a `ValueError`, and no field is removed |
| RunFileArgs.IgnoredLinesChangeNothing | run_file_args.py:22-24 | lines that do not match (comments, lines without `=`) change nothing |
| RunFileArgs.UntouchedFieldKept | run_file_args.py:22-39 | a field that no line assigns keeps its value, and stays absent if it was |
| RunFileArgs.ThreeReadsAsThree | run_file_args.py:31-33 | the raw value `3` with its newline reads as `3` |
| RunFileArgs.RunFileScenario | run_file_args.py:14-39 | lines `increment = 3`, `# comment`, `bad!line` set an int `increment` to 3 and change nothing else |
| RunFileArgs.Namespace.SetAttr | run_file_args.py:37-39 | `setattr` overwrites one field and keeps the rest |
| RunFileArgs.ProcessRunFile | run_file_args.py:14-39 | an empty `run_file` changes nothing; a missing run file raises `AssertionError("Run file not found.")` before any change; otherwise the fields end as `ApplyLines` of the file's lines, stopping at the first failing coercion with the earlier lines applied |

## Left out

- Argument parsing and `--version` (tsdatafaker.py:41-65, 115-137) are library glue. They include the top-level validation of paths and the routing of exceptions.
- Logging (tsdatafaker.py:77-78, 93, 97, 108-112) is left out. It has no effect on what is written.
- `time.sleep`, the polling of `os.path.isfile` and the delay value are left out. Each is one event per batch (`Sleep` or `AwaitRemoval`); time and the consumer are not modelled.
- Opening, writing and closing files are left out. The input file is its list of lines and the output is the trace of batches. Partial writes and I/O errors are not modelled.
- A Python `float` is modelled as an exact `real` (`Value.Float`), so `nan`, `inf` and binary rounding cannot be represented; a float field holds exactly what the float parser returns.
- Python's `int()` and `float()` grammars are parameters of the model; their error texts are not Python's exact messages.
- TsDataFaker.Process: requires `increment >= 1`. With a smaller increment the source loops forever without writing data. This is reachable only through a run file, which bypasses `positive_int_type`.
- TsDataFaker.Process: requires that no line of the input is `""`. This holds for every line `readline` returns before end of file.
- Python exceptions are results. `positive_int_type` and a failing coercion return `Err`/`Some(error)` rather than raising.
- A dictionary is a sequence of pairs in insertion order. The only dictionary used has distinct keys.
- Empty matches follow Python 3.7 and later: an empty match is allowed right after a non-empty one; matters only with an empty key, which no dictionary of the source has.
- The raw value is proved exactly for two shapes of value: an escaped unquoted value, whose words may be separated by spaces (`EscapedLine`), and a single quoted run (`QuotedLine`). A value that mixes quoted and unquoted runs is scanned by `ValueEnd`, but no lemma states its raw value. Both lemmas also fix the shape of the line to `k = …`: no leading whitespace, and a single `=` with exactly one space on each side. Leading blanks, a `==` separator or `k=v` without spaces are covered only by `MatchLine`'s contract on the key and by the examples `DoubleEqualsInKey` and `SpacedDoubleEquals`.
- The regular-expression engine is not modelled. The line pattern is a scanner written to agree with it, not derived from it.
- `re` and `os` are used but never imported in run_file_args.py. The model assumes both are available.
- RunFileArgs.Coerce: a `str` field is replaced by the string as it is. Other field types (`NoneType`, for example) are outside `Value`.
