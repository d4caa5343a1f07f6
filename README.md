# Squad ban checker — a Dafny model

The ban checker reads a Squad server's ban list (`Bans.cfg`), one ban per
line, and splits it into bans that have expired and bans that are still
active, writing each class to its own file (`expired_bans.cfg`,
`active_bans.cfg`) and reporting how many of each there were.

This project models the whole pipeline of `main.go`:

- `Timestamps` — `trimNonNumericCharacters`, the backward loop that keeps the
  run of ASCII digits ending a string (`TrimNonNumericCharacters`, specified by
  the function `TrailingDigits`), and `toTimestamp`, which parses that run with
  `strconv.ParseInt(_, 10, 64)` (`ParseInt64`, `ToTimestamp`). Go's `int64` is
  the newtype `int64`; the parse fails with a syntax error on an empty run and
  a range error above 2^63 − 1.
- `GoStrings` — the parts of Go's `strings` package the code relies on:
  `Split` on `:` (with its inverse `Join`), `TrimSpace` over exactly the code
  points Go's `unicode.IsSpace` accepts, and `HasPrefix`.
- `Bans` — the `Ban` record and `parseBan` (`ParseBan`): two pieces are the
  simple format `id:timestamp`, three pieces the complex format
  `admin:id:timestamp`, and any other number of pieces gives Go's zero-value
  `Ban` with no error.
- `Loader` — the loop of `readBansFromFile` over lines already read
  (`ReadBans`, specified by `LoadBans`): blank lines and `//` comments are
  skipped, lines whose parse fails are dropped, everything else is appended
  in order.
- `Report` — the loop of `main` (`ProcessBans`, specified by `ExpiredOutput`
  and `ActiveOutput`): a ban is expired when its expiration is not 0 and lies
  before the clock reading taken for it; it bumps one counter and its raw line
  plus a newline is appended to one of the two outputs. `Run` is `main`
  after the file has been read.

Three behaviours of `main.go` a reader might not expect:

- A line that is not skipped and has neither one nor two colons is not
  dropped. `parseBan` returns the zero-value `Ban` without an error
  (main.go:132), the loader appends it (main.go:89), and the classifier counts
  it as active and writes an empty line to the active output
  (`Loader.LoadOddLine`, `Report.OddLineWritesEmptyActiveLine`). So a loaded
  ban's raw line can be empty.
- The clock is read once per ban (main.go:46), not once per run, so the
  classifier takes one reading per ban.
- Only digits at the very end of the timestamp text count. A complex line in
  the format of the comment at main.go:118, with a `//comment` after the
  timestamp, is dropped as a parse error unless the comment ends in a digit
  (`Bans.ParseCommentedLine`).

## Model

| member | source | states |
|---|---|---|
| `GoStrings.SplitCount` | main.go:102 | splitting on `:` yields one more piece than there are colons |
| `GoStrings.SplitPiecesFree` | main.go:102 | no piece of the split contains a colon |
| `GoStrings.JoinSplit` | main.go:102 | joining the pieces with `:` gives the line back, so nothing of the line is lost by the split |
| `GoStrings.SplitJoin` | main.go:102 | any non-empty list of colon-free pieces is exactly what splitting their join gives |
| `GoStrings.SplitAround` | main.go:102 | splitting at one colon splits each side independently |
| `GoStrings.SplitTwo` | main.go:102-105 | two colon-free pieces joined by one colon split back into exactly those two pieces |
| `GoStrings.SplitThree` | main.go:102-120 | three colon-free pieces joined by colons split back into exactly those three pieces |
| `GoStrings.TrimSpace` | main.go:111 | the trimmed ID neither starts nor ends with a space character |
| `GoStrings.TrimSpaceIsInfix` | main.go:111 | the trimmed ID is the contiguous run of the piece that starts after its leading spaces, with only spaces removed before and after it |
| `GoStrings.LeadingSpacesAreMaximal` | main.go:111 | trimming starts at the first character that is not a space |
| `GoStrings.TrailingSpacesAreMaximal` | main.go:111 | trimming stops after the last character that is not a space |
| `GoStrings.TrimSpaceKeepsTrimmed` | main.go:125 | an ID with no space at either end is kept as it is |
| `GoStrings.TrimSpaceIdempotent` | main.go:125 | trimming twice is trimming once |
| `Timestamps.TrailingDigits` | main.go:140-153 | the kept text is no longer than the input and made only of ASCII digits |
| `Timestamps.TrailingDigitsIsMaximalRun` | main.go:140-153 | the kept text is a suffix of the input made only of ASCII digits, and is either the whole input or preceded by a non-digit |
| `Timestamps.TrailingDigitsUnique` | main.go:143-149 | those three properties determine the result: any maximal digit suffix is it |
| `Timestamps.TrimNonNumericCharacters` | main.go:140-153 | the backward loop that prepends digits and breaks at the first non-digit returns exactly the maximal trailing digit run |
| `Timestamps.TrailingDigitsExamples` | main.go:143-149 | `"123abc"` and `""` give `""`; `"abc123"` and `"123"` give `"123"` |
| `Timestamps.ParseInt64` | main.go:137 | parsing a digit string never yields a negative value |
| `Timestamps.DecimalValueOfFormat` | main.go:137 | the base-10 reading of a formatted number is that number |
| `Timestamps.LeadingZerosValue` | main.go:137 | leading zeros do not change the parsed value (no octal reading) |
| `Timestamps.ToTimestamp` | main.go:135-138 | a parsed timestamp is never negative; the syntax error occurs exactly when the text is empty or does not end in a digit |
| `Timestamps.ToTimestampOfFormat` | main.go:135-138 | a number written after any text not ending in a digit parses back to itself, or to a range error beyond the int64 range |
| `Timestamps.ToTimestampOfZeros` | main.go:135-138 | a trailing run of zeros yields 0, the permanent-ban value |
| `Bans.ParseBan` | main.go:99-133 | `Admin`, `AdminSteamID` and `Comment` are never set; a parsed expiration is never negative; a result is the zero-value `Ban` or carries the (non-empty) line verbatim |
| `Bans.ParseParts` | main.go:105-132 | the same guarantees for the dispatch on the piece count |
| `Bans.ParseSimple` | main.go:104-116 | with exactly one colon the parse succeeds iff the timestamp of the second piece does; then the ID is the trimmed first piece, the expiration that timestamp and the raw line the line; on failure the timestamp error is wrapped |
| `Bans.ParseComplex` | main.go:118-130 | with exactly two colons the first piece is ignored; the parse succeeds iff the timestamp of the third piece does; the ID is the trimmed middle piece |
| `Bans.ParseOther` | main.go:132 | with any other number of colons the result is the zero-value `Ban` and no error |
| `Bans.ParseSimpleLine` | main.go:104-116 | writing `id:note<n>` and parsing it gives the trimmed `id` and expiration `n`, or a range error when `n` exceeds the int64 range |
| `Bans.ParseComplexLine` | main.go:118-130 | writing `admin:id:note<n>` and parsing it gives the trimmed `id` and expiration `n`, or the range error |
| `Bans.ParseCommentedLine` | main.go:118-130 | a complex line with ` //comment` after its timestamp fails with a syntax error when the comment does not end in a digit |
| `Loader.LineBans` | main.go:79-89 | one line contributes at most one ban |
| `Loader.LoadBans` | main.go:75-90 | the loader never emits more bans than there are lines |
| `Loader.ReadBans` | main.go:75-90 | the scanner loop, with its two `continue`s and the append, computes `LoadBans` of the lines |
| `Loader.LoadBansAppend` | main.go:77-90 | loading is line by line and order preserving: two blocks of lines load as the bans of the first followed by the bans of the second |
| `Loader.LoadBansDropsLine` | main.go:79-87 | a blank line, a `//` comment or a line whose parse fails adds nothing, wherever it stands |
| `Loader.LoadBansKeepsLine` | main.go:83-89 | any other line adds its parsed `Ban` exactly at its position among the others |
| `Loader.LoadedBansOrigin` | main.go:77-90 | every loaded ban is the successful parse of a non-skipped input line; it is the zero-value `Ban` or carries an input line verbatim; its expiration is not negative |
| `Loader.LoadOddLine` | main.go:83-89 | a non-skipped line with neither one nor two colons loads as the zero-value `Ban` |
| `Report.AllOutput` | main.go:50-56 | one output line per ban |
| `Report.ProcessBans` | main.go:45-61 | the loop appends to the expired output exactly `ExpiredOutput` and to the active output exactly `ActiveOutput`; each counter is the length of its output and the two sum to the number of bans |
| `Report.OutputsPartition` | main.go:45-61 | `LinesSplit`: the two outputs together hold every ban's line exactly as often as the bans do (multiset equality) |
| `Report.OutputsCount` | main.go:47-60 | every ban is counted once: the sizes of the two outputs sum to the number of bans |
| `Report.OutputsAppend` | main.go:45-61 | each output keeps input order: two blocks of bans give their outputs one after the other |
| `Report.Routed` | main.go:48-60 | a ban's line lands at its place in exactly one output: the expired one iff its expiration is non-zero and before its clock reading |
| `Report.ExpiredLinesOfNonZero` | main.go:48-53 | an expired ban is never the zero-value `Ban`, so if only zero-value bans have empty lines, no line in the expired output is empty |
| `Report.ExpiredLinesNonEmpty` | main.go:48-53 | for any input, the expired output never holds an empty line; only the active output can receive one, from a zero-value `Ban` |
| `Report.ClassifyThree` | main.go:45-61 | at one time `now`, an expired, a permanent and a not-yet-due ban give one expired line and two active lines in input order |
| `Report.OddLineWritesEmptyActiveLine` | main.go:48-56 | a line with an unsupported number of colons ends as an empty line in the active output and nothing in the expired one |
| `Report.Run` | main.go:21-66 | loading and classifying give the outputs and counts above, with at most as many bans as lines |

## Left out

- File handling: opening `Bans.cfg`, creating and closing the two output files
  and the fatal errors on failure (main.go:22-43, 69-73). The outputs are
  sequences of the strings written to them.
- `bufio.Scanner`: cutting the input into lines (including its removal of a
  trailing `\r`) and its read error, such as a line longer than its token
  limit (main.go:76-78, 92-94). The loader takes the lines already cut.
- Write errors on the output files (main.go:50-53, 56-59): writes are modelled
  as always succeeding; the counters are incremented regardless, as in the source.
- Console output: the diagnostics and the final summary printed with
  `fmt.Println` (main.go:24, 33, 40, 52, 58, 63-65, 85), and the text of error
  messages; a parse error keeps only its kind (`ErrSyntax` or `ErrRange`).
- The clock `time.Now().Unix()` (main.go:46): the classifier takes one reading
  per ban as a parameter.
- Timestamps.ParseInt64: models `strconv.ParseInt` only on strings of ASCII
  digits, the only input it receives here; signs and other syntax are not
  modelled, nor the clamped value Go returns beside a range error, which the
  caller discards.
- Strings are sequences of Unicode code points, while Go indexes bytes. The
  characters the code inspects (digits and `:`) are ASCII, which UTF-8 never
  uses inside a multi-byte character, so the two agree on valid UTF-8;
  invalid UTF-8 is not modelled.
- The counters are Go `int`s, modelled as unbounded naturals; they are bounded
  by the number of bans and cannot overflow.
