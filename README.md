# spargo `.sparql` script parser in Dafny

spargo is a command-line SPARQL client. When it reads a `.sparql` script,
either piped in or run as an interpreter, two functions of
`cmd/spargo/spargo.go` take the script apart:

- `matchShebang` asks whether a line is one of the two magic lines
  `#!spargo` and `#!/usr/bin/spargo`.
- `extractQuery` splits the script at newlines and reads it line by line:
  - empty lines are skipped;
  - a magic line is remembered;
  - a line that spells `ENDPOINT` in any case declares the endpoint url, which is the trimmed text after its first `=`;
  - every other line is appended, with a newline, to the query text.

  If no magic line was seen, it returns a shebang error. The url and the query are returned alongside it.

The model has three modules:

- `GoStrings` (`go_strings.dfy`) models the Go `strings` functions the
  parser calls: `Split` with a one-character separator, `ToUpper`,
  `Contains`, `SplitN(_, _, 2)` and `TrimSpace`. Each is defined
  recursively, with its own specification and lemmas (`Join` inverts
  `Split`, trimming is idempotent, and so on).
- `Spargo` (`spargo.dfy`) holds the constants, `MatchShebang` and
  `ExtractQuery`.
  - Both are methods with loops, as in the source.
  - `ExtractQuery` is proved equal to the pure specification
    `Extract`/`ExtractLines`.
  - `ExtractLines` classifies each line, then computes the url, the
    query and the error from the classified lines.
  - The properties of the parser are lemmas about that specification.
- `Findings` (`findings.dfy`) covers the defect in the endpoint-line guard
  (see "## Findings"). It shows the defect on a concrete script. It also
  has the evidently intended parser: the same loop with the guard,
  `ExtractQueryGuarded`, proved equal to the specification
  `ExtractGuarded`, with lemmas about that specification.

An endpoint line without `=` makes the Go program panic (index out of
range). The model follows the code here. `ExtractQuery` yields the
`Outcome` variant `IndexOutOfRange(line)` at the first such line, and
`Returned(Extraction(url, query, err))` otherwise.

## Model

| member | source | states |
|---|---|---|
| Spargo.MatchShebang | cmd/spargo/spargo.go:36-43 | the result is true exactly when the needle equals some entry of the slice |
| Spargo.ShebangIsExact | cmd/spargo/spargo.go:17 | a line is a magic line iff it is exactly `#!spargo` or `#!/usr/bin/spargo`; a trailing `\r` or a leading space is not accepted |
| Spargo.ExtractQuery | cmd/spargo/spargo.go:46-70 | the loop over the split lines produces exactly the outcome of the line-level specification `Extract`: the url, query and error it returns, or the panic at the first endpoint line without `=` |
| Spargo.HasShebangIff | cmd/spargo/spargo.go:53-54 | a magic line has been seen iff some line of the script equals one of the magic lines |
| Spargo.FirstMalformedIsFirst | cmd/spargo/spargo.go:56-61 | the line on which the parser stops is an endpoint line without `=`, and no earlier line is one |
| Spargo.ErrorIffNoShebang | cmd/spargo/spargo.go:66-68 | when the parser returns, the error is set iff no line of the script is a magic line |
| Spargo.OnlyShebangErrorReturned | cmd/spargo/spargo.go:56-69 | the only error ever returned is the shebang error quoting an empty shebang; the url and query are returned in full even when the error is set |
| Spargo.ShebangErrorMessage | cmd/spargo/spargo.go:67 | the returned error reads `shebang '' is empty or incorrect` |
| Spargo.PanicsOnFirstMalformed | cmd/spargo/spargo.go:56-61 | the parser panics iff some endpoint line has no `=`, and it panics on the first such line |
| Spargo.ShebangOnAnyLine | cmd/spargo/spargo.go:49-54 | a magic line on any line of the script, not only the first, is enough for no error to be returned |
| Spargo.EndpointAnyCase | cmd/spargo/spargo.go:55 | a line that contains `ENDPOINT` in any mix of upper and lower case, and is not a magic line, is an endpoint declaration |
| Spargo.WhiteSpaceLineIsQueryText | cmd/spargo/spargo.go:51-64 | a non-empty line of white space only is not skipped: it becomes query text |
| Spargo.EndpointValueAfterFirstEquals | cmd/spargo/spargo.go:56-61 | the url of `key=value`, where the key has no `=`, is the trimmed value, and any later `=` stays in it |
| Spargo.UrlFromLastEndpoint | cmd/spargo/spargo.go:55-61 | the url is the value of the last endpoint declaration with `=` in the script; endpoint lines without `=` after it do not change it |
| Spargo.UrlEmptyWithoutEndpoint | cmd/spargo/spargo.go:47-61 | the url is empty when the script has no endpoint declaration |
| Spargo.QueryLinesMembers | cmd/spargo/spargo.go:62-63 | a line is kept in the query iff it occurs in the script and is classified as query text |
| Spargo.QueryLinesAppend | cmd/spargo/spargo.go:49-64 | the query lines of two concatenated scripts are the query lines of the first followed by those of the second, so the original order is kept |
| Spargo.QueryLinesClean | cmd/spargo/spargo.go:51-63 | every kept query line is non-empty and, in a split script, contains no newline |
| Spargo.TerminatedIsJoin | cmd/spargo/spargo.go:63 | appending each line plus a newline is joining the lines with newlines and a final empty piece |
| Spargo.QueryRoundTrip | cmd/spargo/spargo.go:49-64 | splitting the returned query at newlines gives back the query-text lines of the script, in order, followed by one `""` |
| Spargo.TerminatedShape | cmd/spargo/spargo.go:63 | newline-terminated non-empty lines give a text that is empty or ends in a newline, does not start with one and has no two newlines in a row |
| Spargo.QueryShape | cmd/spargo/spargo.go:49-64 | the returned query is empty or ends in a newline, never starts with a newline and never contains an empty line |
| Spargo.ScriptErrorIffNoShebang | cmd/spargo/spargo.go:49-68 | for a script text, when the parser returns, the error is set iff no line of the text (split at newlines) is a magic line |
| Spargo.ScriptQueryRoundTrip | cmd/spargo/spargo.go:49-64 | for a script text, splitting the returned query at newlines gives the query-text lines of the script in order, followed by one `""` |
| Spargo.ScriptQueryShape | cmd/spargo/spargo.go:49-64 | for a script text, the returned query is empty or ends in a newline, never starts with one and never contains an empty line |
| GoStrings.Split | cmd/spargo/spargo.go:49 | Go's `strings.Split` with a one-character separator always yields at least one piece |
| GoStrings.JoinSplit | cmd/spargo/spargo.go:49 | joining the pieces of a split with the separator gives back the input |
| GoStrings.SplitJoin | cmd/spargo/spargo.go:49 | splitting a join of separator-free pieces gives back the pieces |
| GoStrings.SplitWithoutSeparator | cmd/spargo/spargo.go:49 | a text without the separator splits into itself alone |
| GoStrings.SplitPartsAreSeparatorFree | cmd/spargo/spargo.go:49 | no piece of a split contains the separator, so no line contains a newline |
| GoStrings.SplitAppend | cmd/spargo/spargo.go:49 | splitting `a + sep + b` splits `a` and `b` independently |
| GoStrings.JoinAppend | cmd/spargo/spargo.go:49 | joining the concatenation of two non-empty piece lists puts one separator between their joins |
| GoStrings.ToUpper | cmd/spargo/spargo.go:55 | ASCII `strings.ToUpper` keeps the length, maps each character by itself and leaves no lower-case letter |
| GoStrings.ToUpperAppend | cmd/spargo/spargo.go:55 | upper-casing distributes over concatenation |
| GoStrings.ContainsIff | cmd/spargo/spargo.go:55 | `strings.Contains` holds iff the substring occurs at some position |
| GoStrings.SplitAtFirst | cmd/spargo/spargo.go:56-57 | `strings.SplitN(s, "=", 2)` gives one piece, the input itself, iff there is no `=`; otherwise it gives the `=`-free text before the first `=` and the rest after it |
| GoStrings.SplitAtFirstOfJoined | cmd/spargo/spargo.go:56 | an `=`-free key, `=` and any value split back into key and value |
| GoStrings.TrimLeft | cmd/spargo/spargo.go:61 | the result is a suffix of the input after white space only, and starts with a non-space if it is not empty |
| GoStrings.TrimRight | cmd/spargo/spargo.go:61 | the result is a prefix of the input before white space only, and ends with a non-space if it is not empty |
| GoStrings.TrimSpace | cmd/spargo/spargo.go:61 | the trimmed url neither starts nor ends with white space |
| GoStrings.TrimSpaceIsMiddle | cmd/spargo/spargo.go:61 | the trimmed url is a contiguous middle of the text, and only white space is dropped on either side |
| GoStrings.TrimSpaceOfPadded | cmd/spargo/spargo.go:61 | trimming removes exactly the white-space padding around a core that does not start or end with white space |
| GoStrings.TrimSpaceIdempotent | cmd/spargo/spargo.go:61 | trimming twice is trimming once |
| Findings.BareEndpointIsMalformed | cmd/spargo/spargo.go:55-58 | the line `ENDPOINT` is an endpoint declaration with no `=` |
| Findings.EndpointWithoutEqualsPanics | cmd/spargo/spargo.go:56-61 | as written, the marked script `#!spargo`, `ENDPOINT`, `SELECT * {}` does not return: it stops with an index out of range on `ENDPOINT` |
| Findings.LastMalformed | cmd/spargo/spargo.go:58 | the position of the endpoint line whose formatting error would be left in `err` is -1 or a valid index |
| Findings.LastMalformedIsLast | cmd/spargo/spargo.go:56-59 | that position holds an endpoint line without `=`, no later line is one, and it is -1 only when no line is one |
| Findings.ExtractQueryGuarded | cmd/spargo/spargo.go:46-70 | the parser loop with the url assignment guarded by the length check always returns, and returns exactly `ExtractGuarded` of the script's lines: the url of the last endpoint line with `=`, the query text, and the shebang error, else the formatting error of the last endpoint line without `=`, else none |
| Findings.GuardedMalformedKeepsUrl | cmd/spargo/spargo.go:56-61 | with the guard, an endpoint line without `=` leaves the url as it was before that line |
| Findings.GuardedShebangErrorWins | cmd/spargo/spargo.go:56-69 | with the guard, a script without a magic line gets the shebang error even when it also has an endpoint line without `=` |
| Findings.GuardedErrorIff | cmd/spargo/spargo.go:56-69 | the guarded parser returns no error iff the script has a magic line and every endpoint line has `=` |
| Findings.GuardedReportsFormatError | cmd/spargo/spargo.go:56-69 | in a marked script with an endpoint line without `=`, the guarded parser returns the formatting error of the last such line instead of panicking |
| Findings.GuardedAgreesWithoutMalformed | cmd/spargo/spargo.go:46-70 | on every script the written parser returns from, the guarded parser returns the same triple |

## Left out

- Reading the script from a pipe or a file, flag parsing, the version
  text and running the query (`init`, `isPipeInput`, `interpreterInput`,
  `handlePipedInput`, `handleInterpreterInput`, `runQuery`, `main` in
  cmd/spargo/spargo.go). These are I/O and process handling.
- The SPARQL client library and its result types (`pkg/spargo`). Those
  are the HTTP and JSON side of the program, not the script parser.
- The wording of Go's runtime panic message. The panic is modelled as the
  outcome `IndexOutOfRange(line)`.
- GoStrings.ToUpper: handles ASCII letters only. Go's `strings.ToUpper`
  also maps non-ASCII lower-case letters, so a line that reaches
  `ENDPOINT` only through Unicode case mapping is classified differently.
- GoStrings.TrimSpace: trims ASCII white space only (space, `\t`, `\n`,
  `\v`, `\f`, `\r`). Go also trims U+0085, U+00A0 and the other Unicode
  spaces.
- Strings are sequences of characters, not of UTF-8 bytes. The parser
  only compares, splits at ASCII characters and concatenates, so this does
  not change its results on valid text.

## Findings

| source | as written | input that shows it | evidently intended | confidence | as-written member | corrected member |
|---|---|---|---|---|---|---|
| cmd/spargo/spargo.go:56-61 | an endpoint line without `=` sets the formatting error, then still reads the second piece of a one-piece split, so the program panics and the error is never returned | the script `#!spargo`, `ENDPOINT`, `SELECT * {}` | return the formatting error and leave the url unchanged; the final shebang check still takes precedence | not executed | Findings.EndpointWithoutEqualsPanics | Findings.ExtractQueryGuarded |
