# nginx-ingress access-log parser, modelled in Dafny

`parser.py` reads an nginx-ingress access log in the extended "upstreaminfo"
format and turns every line into one CSV row. The model covers the part of
the program that decides what those rows are:

- **Line grammar** (`LogGrammar`). The anchored expression `LOG_RE` is a fixed
  sequence of eighteen pieces: whitespace-free tokens, bracketed and quoted
  fields, and a three-digit status. They are separated by whitespace and run
  to the end of the line. `Scan` is a left-to-right tokenizer. `IsLogLine` is
  the grammar as a predicate: "there are captures and separators that
  assemble into this line". The two are proved to agree on every line.
- **Field coercion** (`Coerce`). `safe_int` and `safe_float` never fail. The
  empty string, `"-"` and anything `int()`/`float()` rejects are absent.
  `upstream_status` becomes an integer when its token is all digits and
  stays the raw token otherwise.
- **Request decomposition** (`Request`). `split_request` takes the first
  three whitespace-separated words as method, uri and protocol. An absolute
  uri goes to `urlparse`. A relative one is cut at its first `?`. The query
  key count is the number of distinct names `parse_qs` keeps.
- **Time normalisation** (`LogTime`). `time_local` is parsed the way `strptime`
  reads `%d/%b/%Y:%H:%M:%S %z`. It is checked the way the `datetime` and
  `timezone` constructors check it. It is then shifted to UTC by its offset
  and rendered as `YYYY-MM-DDTHH:MM:SSZ`. Instants are integer seconds since
  1970-01-01 on the proleptic Gregorian calendar. A time that does not parse,
  or that leaves the representable years after the shift, is a hard failure.
- **Rows** (`Records`). The row dictionary built for every matched line.
- **Filters** (`Filters`). `row_matches_filters`: status, method, path
  substring, client address, and inclusive since/until bounds. The
  categories are ANDed, and one that is not configured imposes nothing.
- **Sort and limit** (`Sorting`). `list.sort` with a key, as a stable
  insertion sort. The sort stays stable when `reverse=True`. After it comes
  the Python slice `rows[:limit]`.
- **Main loop** (`Pipeline`). The methods `ReadLine`, `ReadMatch`, `ReadRecord`, `Collect`
  and `Run` are the loop over the input lines and what follows it. The loop
  strips the newline, skips blank lines and counts unmatched lines. It stops
  in strict mode, builds and filters rows, and appends the kept ones. Then
  it sorts the rows and cuts them to the limit. Each method is proved equal
  to a functional description: every line is classified into a `LineKind`,
  and the kinds are folded. The lemmas about that fold state what the loop
  promises.

An early stop is an `Outcome`, not a list of rows. There are four, and the
last two are the same uncaught-exception outcome (`RaiseAbort`):

- a missing input file (exit status 2);
- an unmatched line in strict mode (exit status 3, with the line number and the line);
- an absolute request uri that `urlparse` rejects with ValueError, such as an
  unbalanced `[` in its host (exit status 1);
- a time `strptime`/`astimezone` rejects (exit status 1).

Behaviour fixed by the code and stated by the model:

- The `-1` sentinel for an absent sort key ties with a present value of
  exactly `-1`. "Absent sorts lowest" therefore holds only against values
  above `-1` (`AbsentSortsOutside`, `SentinelTies`).
- `rows[:limit]` with a negative limit drops that many rows from the end,
  and `limit = 0` gives no rows (`Truncate`).
- A `time_local` that does not parse ends the whole run. It does not make
  the field absent (`RunAborts`, `RaiseAbort`).

## Model

| member | source | states |
|---|---|---|
| `LogGrammar.MatchLine` | parser.py:10-29 | a match satisfies the grammar predicate; status is three ASCII digits; time_local is non-empty and has no `]`; quoted captures have no `"`; every `\S+` capture is non-empty and whitespace-free |
| `LogGrammar.MatchLineIff` | parser.py:10-29 | a line matches if and only if it fits the eighteen-piece sequence end to end |
| `LogGrammar.MatchAssembled` | parser.py:10-29 | a line built from any well-formed captures and separators matches, and gives back exactly those captures |
| `LogGrammar.MatchCapturesVerbatim` | parser.py:10-29 | every named capture of a match occurs verbatim in the line, and remote_addr is its prefix |
| `Coerce.SafeIntShowInt` | parser.py:37-43 | safe_int reads back every integer in Python's decimal rendering |
| `Coerce.SafeIntDigits` | parser.py:37-43 | a decimal digit string yields its value |
| `Coerce.SafeIntRejects` | parser.py:37-43 | a non-blank character other than a digit or sign makes the value absent |
| `Coerce.SafeFloatExtendsSafeInt` | parser.py:37-51 | wherever safe_int gives an integer, safe_float gives the same number |
| `Coerce.SafeFloatRejects` | parser.py:45-51 | a character that cannot occur in a decimal literal makes the value absent |
| `Coerce.SafeFloatDecimal` | parser.py:45-51 | `whole.frac` reads as the exact decimal value it denotes |
| `Coerce.UpstreamStatusOf` | parser.py:186 | an integer exactly when the token is all digits, with safe_int's value; otherwise the raw token unchanged |
| `Request.Words` | parser.py:55 | every word of `str.split()` is non-empty and whitespace-free |
| `Request.WordsBlank` | parser.py:55 | there are no words exactly when the request is all whitespace |
| `Request.WordsJoin` | parser.py:55 | splitting words joined by single spaces gives back the words |
| `Request.SplitRequest` | parser.py:53-68 | fails exactly when the uri is absolute and urlparse raises; absolute uri: path and query from urlparse; relative uri with `?`: path + "?" + query is the uri and path has no `?`; otherwise path is the uri and query is empty |
| `Request.WordsSpaced` | parser.py:55 | words set apart by any whitespace gaps, with gaps allowed at both ends, split back into exactly those words |
| `Request.SplitRequestWords` | parser.py:55-68 | for any whitespace between and around the words, the split fails exactly when the second word is an absolute uri urlparse rejects; otherwise method, uri and proto are the first three words, or "" where there are fewer; further words are ignored |
| `Request.SplitRequestShort` | parser.py:56-58 | with fewer than two words the split succeeds, and uri, path, query and proto are all "" |
| `Request.Distinct` | parser.py:164 | the keys of the parsed query are pairwise different and are exactly the names that occur |
| `Request.QueryKeysCount` | parser.py:160-166 | 0 for an empty query, otherwise the number of distinct names |
| `Request.RepeatedName` | parser.py:160-166 | a further `&`-piece whose name was already seen leaves the count unchanged |
| `LogTime.CheckLeapDay` | parser.py:34-35 | 29 February is accepted exactly in a leap year |
| `LogTime.CheckDayPastMonth` | parser.py:34-35 | the day after a month's last day is never accepted |
| `LogTime.CheckOffsetBounds` | parser.py:34-35 | offsets of ±1439 minutes are accepted and ±1440 are rejected |
| `LogTime.ParseTime` | parser.py:32-35 | every parsed stamp is a valid datetime with an admissible offset |
| `LogTime.MonthRoundTrip` | parser.py:32-35 | `%b` reads back every English month abbreviation as its month number |
| `LogTime.ZoneRoundTrip` | parser.py:32-35 | `%z` reads back every `±HHMM` offset under a day |
| `LogTime.ParseFormatLocal` | parser.py:32-35 | parsing reads back every stamp in nginx's time_local notation |
| `LogTime.ToUtc` | parser.py:158 | the UTC reading is a valid datetime whose instant is the local instant less the offset |
| `LogTime.ToUtcZero` | parser.py:158 | a zero offset leaves every field unchanged |
| `LogTime.TimeUtc` | parser.py:157-158 | a UTC time exactly when the stamp parses and its UTC reading stays in years 1..9999; that reading is a valid datetime at the local instant less the offset |
| `LogTime.TimeUtcZeroOffset` | parser.py:157-158 | a `+0000` stamp's UTC reading is its local reading |
| `LogTime.ExampleOffsets` | parser.py:157-158 | `+0000`, `+0200` and `-0100` (across a year end) shift as stated |
| `LogTime.RenderUtcFields` | parser.py:170 | the rendering is 20 characters ending in `Z`, with no other `Z`, and each field is at a fixed place |
| `LogTime.ExampleRender` | parser.py:170 | 2021-04-26 21:20:17 renders as `2021-04-26T21:20:17Z` |
| `Records.BuildRecord` | parser.py:153-189 | a matched line has no row exactly when urlparse rejects its uri or its time_local has no UTC reading |
| `Records.RecordTime` | parser.py:157-158 | a row's instant is its local reading less the offset, time_utc renders that instant, and time_local is kept |
| `Records.MatchedRecord` | parser.py:167-189 | status is always present and below 1000; remote_addr starts the line; remote_addr and request_id are whitespace-free; upstream_status is an integer exactly for a digit token |
| `Filters.RowMatches` | parser.py:70-85 | a row is kept exactly when every configured category passes |
| `Filters.NoFiltersKeepAll` | parser.py:70-85 | with nothing configured every row is kept |
| `Filters.UnconfiguredNeverRejects` | parser.py:70-85 | unsetting any one category never rejects a row that was kept |
| `Filters.PathMustContain` | parser.py:75-76 | a non-empty path substring that occurs nowhere in the path rejects the row |
| `Filters.EmptyPathRejected` | parser.py:75-76 | a non-empty path substring rejects the empty path |
| `Filters.BoundsInclusive` | parser.py:79-84 | a row at exactly the since and until instant is kept |
| `Filters.WiderStatusKeeps` | parser.py:71-72 | allowing more status codes keeps every row kept before |
| `Sorting.SortSorted` | parser.py:210 | the sorted rows are ordered by the key in the requested direction |
| `Sorting.SortPermutes` | parser.py:210 | the sort is a permutation of the rows |
| `Sorting.SortStable` | parser.py:210 | rows with equal keys keep their input order, ascending or descending |
| `Sorting.TiedPair` | parser.py:210 | two rows with equal keys are not swapped in either direction |
| `Sorting.AheadComesFirst` | parser.py:210 | in sorted rows, a row with a key strictly ahead comes first |
| `Sorting.Truncate` | parser.py:212-213 | a prefix of the rows: all of them without a limit, `min(limit, n)` of them for a limit ≥ 0, and `n + limit` (at least 0) for a negative limit |
| `Pipeline.ClassifyMeaning` | parser.py:141-158 | a line is blank exactly when it is whitespace after the newline strip; unmatched exactly when non-blank and LOG_RE fails, with the stripped line; an uncaught exception exactly when it matches but has no row (urlparse or the time fails) |
| `Pipeline.ClassifyKeeps` | parser.py:141-200 | a line is kept with a row exactly when it is a matched line whose row passes the filters |
| `Pipeline.FoldRunning` | parser.py:139-200 | the loop runs to the end exactly when no line raises an uncaught exception or is a strict-mode unmatched line; then its rows are the kept rows in line order and its count is the number of unmatched lines |
| `Pipeline.StoppedPersists` | parser.py:146-151 | once the loop has stopped, later lines change nothing |
| `Pipeline.StopsAtFirstFault` | parser.py:146-158 | the loop stops at the first faulty line, with that line's 1-based number |
| `Pipeline.BlankSkipped` | parser.py:141-143 | a blank line neither adds a row nor counts as bad |
| `Pipeline.StrictRunningClean` | parser.py:146-151 | in strict mode a loop that runs to the end has counted no bad line |
| `Pipeline.KeptIff` | parser.py:193-200 | a row is buffered exactly when some line was kept with it |
| `Pipeline.KeptFromLines` | parser.py:140-200 | a row is buffered exactly when some input line matches, builds that row and passes the filters |
| `Pipeline.RunCompleted` | parser.py:136-213 | a run completes exactly when no line is faulty; its output is the limited stable sort of the kept rows, ordered by the key, drawn from the kept rows, with the bad-line count |
| `Pipeline.RunAborts` | parser.py:146-158 | a run that does not complete ends at its first faulty line, with exit status 3 for an unmatched line and 1 for an uncaught exception |
| `Pipeline.MissingInput` | parser.py:132-134 | a missing input ends the run with exit status 2 |
| `Pipeline.AbsentSortsOutside` | parser.py:203-210 | against values above -1, rows without the key come first ascending and last descending |
| `Pipeline.SentinelTies` | parser.py:205-208 | an absent key and a present -1 tie, so their input order is kept |
| `Pipeline.ReadLine` | parser.py:141-200 | one pass of the loop body takes the state to the next step of the line-by-line description |
| `Pipeline.ReadMatch` | parser.py:145-200 | the loop body on a non-blank line: an unmatched line is counted, or aborts the run in strict mode with its number and text; a matched line goes on to its record |
| `Pipeline.ReadRecord` | parser.py:154-200 | the part of the loop body after the match: an uncaught exception stops the loop, and the row is appended exactly when it passes the filters |
| `Pipeline.Collect` | parser.py:136-200 | the loop's final state is the fold of the line kinds over all input lines |
| `Pipeline.Run` | parser.py:130-213 | the whole run equals its functional description: missing input, early stop, or the sorted and limited kept rows |

## Left out

- Reading the input: the file-existence check, opening, and UTF-8 decoding
  with replacement. The input is `Option<seq<string>>`, where `None` means
  the file does not exist and each string is one line with its newline, as
  text-mode iteration yields it, with `\r\n` and `\r` already turned into `\n`.
- Output: creating the output directory, writing the CSV, and the `print`
  messages. The exit statuses become `Outcome` variants and `ExitCode`.
- Argument parsing (`parse_args`, parser.py:87-111) and the ISO bound parser
  (`parse_iso_utc`, parser.py:113-120). The filters take ready-made values.
  The since/until bounds are integer epoch seconds, so a bound with a
  fraction of a second is not modelled.
- `urlparse` for absolute request URIs (parser.py:63-65) and `parse_qs`'s
  percent-decoding (parser.py:164). These are library code, so they are
  parameters of the model (`Records.Library`). Which uris urlparse rejects
  is left to the parameter: None stands for its ValueError. The split on `&`, dropping
  pieces without `=` or with an empty value, and `+` read as a space are
  modelled.
- The `except Exception` branch around `parse_qs` (parser.py:165-166). The
  modelled name extraction cannot fail, so that branch never happens here.
- SafeInt: `int()` on Python 3.11 and later (and recent 3.10 releases) rejects
  a string of more than 4300 digits, so safe_int gives None there. The model
  reads digit strings of any length. It also rejects underscores between
  digits, which `int()` accepts (`int("1_0") == 10`).
- SafeIntDigits: states the value of a digit string of any length, including
  one over the 4300-digit limit, where Python's safe_int gives None.
- SafeIntRejects: its character must be ASCII for the claim to match Python.
  `int()` also reads non-ASCII decimal digits such as `٣`, which the model
  rejects.
- SafeFloatRejects: likewise for non-ASCII decimal digits, which `float()`
  reads. The lemma excludes `_` and the letters of `inf`, `infinity` and
  `nan`. `SafeFloat` itself still gives None for those spellings, and for
  underscores, where `float()` accepts them.
- UpstreamStatusOf: an all-digit token of more than 4300 digits is a `Code`
  here, where Python's safe_int makes it None.
- Floating-point values. `safe_float` results and sort keys are exact
  reals. `inf`, `nan`, underscores in literals and rounding are not
  modelled.
- Unicode digits and whitespace beyond Python's `str.isspace` set, locale
  month names, and the `%z` forms `Z`, `±HH:MM`, `±HHMMSS[.ffffff]` and
  `±HH:MM:SS[.ffffff]`. Digits are ASCII, months are English, and `%z` is
  `±HHMM`, so an offset is a whole number of minutes.
- The `row["time_utc"] and` guard in the since/until tests (parser.py:80,
  83). It is always true, because every row carries its time.
- `bad_lines` is incremented before the strict-mode exit (parser.py:147-150).
  The count is not part of that `Outcome`, because the program discards it.
