# Sandbox-violation log parsing, modelled in Dafny

srt-osquery-extension reports sandbox denials as rows of an osquery table. Its
collectors run a platform log command and turn the text that comes back into
`Violation` records. This project models that parsing core:

- **Linux** (`pkg/collector/collector_linux.go`). journalctl prints lines of the
  shape `Nov 03 16:25:43 host bwrap[12345]: message`. The header pattern
  splits them into a clock, a host, a process name and id, and a message. A
  line is kept when the process name contains `bwrap` or the message contains
  `bubblewrap`, ignoring case. A second pattern searches the message for a
  denial keyword (`permission denied`, `eperm`, `access denied`, `denied`,
  ignoring case) followed lazily by the first path character. The keyword
  becomes the operation and the run of path characters the target path;
  without it the operation is `unknown` and the path empty. The clock is
  parsed with the layout `Jan 02 15:04:05` and placed in the current year in
  the local zone; when it does not parse, the current time stands in. The
  deny code is always `EPERM`. When journalctl fails, the collector runs
  `dmesg -T` and parses its output with the same journal parser.
- **macOS** (`pkg/collector/collector_darwin.go`). `log show --style syslog`
  prints lines such as
  `2025-11-03 16:25:43.448666+0900  localhost kernel[0]: (Sandbox) Sandbox: cat(13276) deny(1) file-read-data /path`.
  The sandbox pattern supplies the process name and id, the deny code, the
  operation and the path; the path is trimmed of white space. The leading
  timestamp is parsed with the layout `2006-01-02 15:04:05.999999-0700`
  when the timestamp pattern finds one. The current time stands in when
  there is none, when it does not parse, or when it parses to Go's zero
  instant.
- **Both.** Output is read with `bufio.Scanner`. Lines that fail a cheap
  substring pre-filter are skipped, and violations are kept in line order.
  A line too long for the scanner's 64 KiB buffer stops the scan. The
  violations gathered so far are then returned together with an
  `error scanning … output` error. A failing `log show`, or journalctl and
  dmesg both failing, gives a `failed to execute …` error naming that
  command and no violations; a failing journalctl alone only sends the
  Linux collector to dmesg.

The model is organised as follows:

- Each regular expression is a predicate over the positions where its groups
  begin and end (`IsHeaderMatch`, `IsDenialMatch`, `IsSandboxMatch`,
  `IsStampMatch`). These predicates are the declarative reference.
- The matchers are greedy scans. Lemmas show that a matcher finds a match
  exactly when one exists, and that it finds the one Go's leftmost-first
  engine reports.
- `time.Parse` is modelled step by step, the way Go reads each layout
  element: one- or two-digit numbers, runs of spaces, month abbreviations
  ignoring case, fraction digits, and `-0700` offsets with their range
  checks. Each parser is proved to read back what the matching formatter
  writes.
- The shared loop (`LogLines`) is stated once. The pre-filter, the line
  parser and the name used in the error are its parameters.
- The external commands are parameters of type `CommandOutcome`. The current
  year and the current time are parameters too.

Modules: `Wrappers` (Option), `Violations` (the record, timestamps, errors),
`Chars` (character classes, greedy spans, `strings.Contains`, `ToLower`,
`TrimSpace`), `LineScanner` (`bufio.Scanner` with `ScanLines`), `GoTime`
(calendar and `time.Parse` building blocks, `Time.IsZero`), `LogLines`,
`LinuxCollector`, `DarwinCollector`.

Three behaviours of the code are worth stating on their own:

- A macOS line needs only the sandbox pattern to match. A line without a
  leading timestamp still gives a violation, stamped with the current time
  (`DarwinCollector.ParseViolation`).
- When no line gives a violation, the Go code returns a nil slice. Here that
  is the empty sequence.
- When the dmesg fallback hits an over-long line, the code still reports
  `error scanning journal output`, so `LinuxCollector.CollectFromDmesg`
  reports `ScanFailed("journal")`.

One consequence of the code is stated as a lemma, not as a bug.
`dmesg -T` prints lines that begin with `[`, and the journal header pattern
needs a word character at the start of the line. So when every line of
dmesg's output begins with `[`, as `dmesg -T` prints them, the fallback
yields no violation (`LinuxCollector.LemmaDmesgYieldsNothing`).

## Model

| member | source | states |
|---|---|---|
| LinuxCollector.MatchHeader | pkg/collector/collector_linux.go:91-94 | whatever the header matcher returns is a match of the journal pattern, with clock, host, name, id and message groups; that it finds one whenever one exists, and which, is LinuxCollector.LemmaMatchHeaderChosen |
| LinuxCollector.LemmaMatchHeaderChosen | pkg/collector/collector_linux.go:17 | the header matcher finds a match exactly when the journal pattern matches the line; the match it returns is the one whose greedy groups leave the shortest message, which is the only one Go can report |
| LinuxCollector.LemmaBracketLineHasNoHeader | pkg/collector/collector_linux.go:17 | a line starting with `[` never matches the journal pattern, so it never parses to a violation |
| LinuxCollector.FindDenial | pkg/collector/collector_linux.go:18 | the search for the denial pattern from a position returns a match that no other match from that position precedes in leftmost-first order (earliest start, then the keyword alternative listed first), and none when no match starts there or later |
| LinuxCollector.LemmaDenialIsFirstMatch | pkg/collector/collector_linux.go:18 | the path is empty exactly when the denial pattern matches nowhere in the message; otherwise the operation and the path are the keyword and the path group of the leftmost-first match |
| LinuxCollector.LemmaDenialOperationIsKeyword | pkg/collector/collector_linux.go:18 | whenever a path was found, the operation is one of the four keywords, spelled as in the message under case folding |
| LinuxCollector.Denial | pkg/collector/collector_linux.go:117-124 | the operation defaults to `unknown` when no path is found, and the path is made only of path characters (`/`, word characters, `-`, `.`) |
| LinuxCollector.LemmaParseFormatClock | pkg/collector/collector_linux.go:108 | parsing with the layout `Jan 02 15:04:05` reads back every valid clock written as `Mon DD hh:mm:ss` |
| LinuxCollector.ParseJournalClock | pkg/collector/collector_linux.go:108 | a parsed clock is in range (month 1-12; day within the month as it is in year 0, a leap year, so 29 February passes; hour below 24; minute and second below 60), and its month is the abbreviation that begins the stamp, ignoring case |
| LinuxCollector.InYear | pkg/collector/collector_linux.go:113-114 | the timestamp is the clock placed in the given year and the local zone with zero nanoseconds; the day is normalised into its month as time.Date does, so 29 February of a common year becomes 1 March |
| LinuxCollector.JournalTimestamp | pkg/collector/collector_linux.go:107-115 | an unparsable clock gives `now`; a parsed one gives a timestamp in the given year in the local zone |
| LinuxCollector.LemmaJournalTimestampOfFormat | pkg/collector/collector_linux.go:107-115 | a real date written by the journal comes back as exactly that date and time in the supplied year, local zone |
| LinuxCollector.ViolationOf | pkg/collector/collector_linux.go:96-134 | for a header match, a violation is produced exactly when the process name contains `bwrap` or the message contains `bubblewrap`, ignoring case; it carries the line itself and the deny code `EPERM` |
| LinuxCollector.ParseViolation | pkg/collector/collector_linux.go:88-135 | a line the journal pattern does not match gives nothing; any violation carries its own line and `EPERM` |
| LinuxCollector.LemmaParseViolationFields | pkg/collector/collector_linux.go:91-134 | for the header match Go reports, the result is the violation built from that match's groups: clock, name, id, denial operation and path |
| LinuxCollector.ConcernsBubblewrap | pkg/collector/collector_linux.go:101-105 | a header match concerns bubblewrap exactly when the process name contains `bwrap` or the message contains `bubblewrap`, compared character by character after lower-casing |
| LinuxCollector.MentionsSandboxing | pkg/collector/collector_linux.go:67-73 | a line passes the pre-filter exactly when, lower-cased, it contains `bwrap`, `bubblewrap` or `permission denied` somewhere |
| LinuxCollector.LemmaConcernsPassesFilter | pkg/collector/collector_linux.go:101-105 | a line that passes the bubblewrap relevance test also contains `bwrap` or `bubblewrap` when lower-cased as a whole |
| LinuxCollector.LemmaFilterKeepsEveryViolation | pkg/collector/collector_linux.go:67-75 | every line that parses to a violation passes the lower-case substring pre-filter |
| LinuxCollector.LemmaPreFilterIsTransparent | pkg/collector/collector_linux.go:67-78 | the pre-filter only saves work: on any lines, the violations are the same with it as without it |
| LinuxCollector.ParseJournalOutput | pkg/collector/collector_linux.go:59-86 | an error is reported exactly when some line is too long for the scanner, and it is the journal scanning error; with it, the violations are those of the lines before the first over-long one, in order; without it, those of all the output's lines in order; empty output gives no violations and no error |
| LinuxCollector.LemmaJournalViolationsAreLines | pkg/collector/collector_linux.go:64-79 | every violation reported is one of the output's lines, passed the pre-filter and carries `EPERM` |
| LinuxCollector.CollectFromDmesg | pkg/collector/collector_linux.go:49-57 | a failed dmesg gives no violations and the `failed to execute dmesg` error; when dmesg runs, the result is its output parsed by the journal parser, so the only possible error is the journal scanning error and every violation comes from a line of dmesg's output |
| LinuxCollector.CollectViolations | pkg/collector/collector_linux.go:39-46 | when journalctl runs, the result is its output parsed by the journal parser, every violation coming from one of its lines; a failed journalctl falls back to dmesg; an execution error means both commands failed and nothing was collected |
| LinuxCollector.LemmaFallbackOnlyOnFailure | pkg/collector/collector_linux.go:39-56 | dmesg's outcome matters only when journalctl failed, the cause of journalctl's failure never matters, and both failing gives the dmesg execution error with no violations |
| LinuxCollector.LemmaDmesgYieldsNothing | pkg/collector/collector_linux.go:49-57 | when journalctl fails and every line of dmesg's output starts with `[`, as `dmesg -T` prints them, no violation is collected |
| DarwinCollector.FindSandbox | pkg/collector/collector_darwin.go:17 | the search for the sandbox pattern returns a match at the earliest position where one starts, computed by the matcher from that position, and none when no match starts there or later |
| DarwinCollector.LemmaMatchSandboxAtSound | pkg/collector/collector_darwin.go:17 | whatever the matcher returns at a position is a match of the sandbox pattern starting there |
| DarwinCollector.LemmaSandboxAtForced | pkg/collector/collector_darwin.go:17 | whenever a match starts at a position, the matcher finds one there with the same groups, and its path group starts no earlier |
| DarwinCollector.LemmaFindSandboxChosen | pkg/collector/collector_darwin.go:17 | the search fails exactly when the sandbox pattern matches nowhere; otherwise it returns the leftmost match with the longest greedy `\s+` before the path, the one Go reports, and that match is unique |
| DarwinCollector.LemmaViolationShape | pkg/collector/collector_darwin.go:17 | a reported process name is a non-empty word, the process id and the deny code are non-empty digit strings, and the operation is non-empty word characters and dashes |
| DarwinCollector.MatchStamp | pkg/collector/collector_darwin.go:18 | the timestamp matcher's result is a match of the anchored timestamp pattern |
| DarwinCollector.LemmaStampForced | pkg/collector/collector_darwin.go:18 | whenever the timestamp pattern matches with given clock and fraction ends, the matcher returns exactly those ends |
| DarwinCollector.LemmaFormatStampMatch | pkg/collector/collector_darwin.go:18 | a timestamp as `log show` writes it matches the timestamp pattern, and the group is the 31 characters written |
| DarwinCollector.ParseLogTime | pkg/collector/collector_darwin.go:77 | a timestamp parsed with the layout `2006-01-02 15:04:05.999999-0700` is a valid calendar date and time with nanoseconds below 10^9 and a whole-minute offset within Go's range |
| DarwinCollector.LemmaParseFormatLogTime | pkg/collector/collector_darwin.go:77 | parsing reads back every printable timestamp written in that layout, fraction and offset included |
| DarwinCollector.CapturedStamp | pkg/collector/collector_darwin.go:75 | a timestamp is captured exactly when the anchored timestamp pattern matches the line; the capture is the front of the line up to the end of the offset |
| DarwinCollector.LineTimestamp | pkg/collector/collector_darwin.go:74-86 | the timestamp is `now` when nothing is captured, when the capture does not parse (a month 13, say) or when it parses to the zero instant, and the parsed time otherwise; so it is always `now` or a valid time that is not the zero instant |
| DarwinCollector.LemmaLineTimestampOfFormat | pkg/collector/collector_darwin.go:74-86 | a line starting with a written timestamp gets that timestamp, or `now` when it is the zero instant |
| DarwinCollector.ViolationOf | pkg/collector/collector_darwin.go:94-102 | the violation built from a match carries the line and its timestamp, and its path has no white space at either end |
| DarwinCollector.ParseViolation | pkg/collector/collector_darwin.go:72-103 | a line gives a violation exactly when the sandbox pattern matches it, whether or not it has a timestamp; the violation carries the line, the line's timestamp and a trimmed path |
| DarwinCollector.LemmaParseViolationFields | pkg/collector/collector_darwin.go:88-102 | for the match Go reports, the result is the violation built from that match's five groups |
| DarwinCollector.MentionsSandbox | pkg/collector/collector_darwin.go:54 | a line passes the pre-filter exactly when `Sandbox:` occurs in it at some position |
| DarwinCollector.LemmaFilterKeepsEveryViolation | pkg/collector/collector_darwin.go:54-58 | every line that parses to a violation contains `Sandbox:` |
| DarwinCollector.LemmaPreFilterIsTransparent | pkg/collector/collector_darwin.go:52-62 | the `Sandbox:` pre-filter does not change the violations found in any lines |
| DarwinCollector.ParseLogOutput | pkg/collector/collector_darwin.go:48-69 | an error is reported exactly when some line is too long for the scanner, and it is the log scanning error; with it, the violations are those of the lines before the first over-long one, in order; without it, those of all the output's lines in order; empty output gives no violations and no error |
| DarwinCollector.LemmaLogViolationsAreLines | pkg/collector/collector_darwin.go:52-62 | every violation reported is one of the output's lines and contains `Sandbox:` |
| DarwinCollector.CollectViolations | pkg/collector/collector_darwin.go:40-45 | a failed `log show` gives no violations and the `failed to execute log show` error; when it runs, the result is its output parsed by parseLogOutput, so the only possible error is the log scanning error and every violation comes from a line of the output |
| DarwinCollector.LemmaCollectEveryLine | pkg/collector/collector_darwin.go:40-68 | when `log show` runs and no line is too long, the collection is the parse of every output line, in order, with no error, the same as without the `Sandbox:` pre-filter; an over-long line gives the log scanning error |
| LogLines.ParseOutput | pkg/collector/collector_darwin.go:48-69 | the shared loop reports the scanning error exactly when a line is too long, together with the violations of the lines before the first over-long one; otherwise it reports the violations of all lines; empty output gives nothing |
| LogLines.ParseLines | pkg/collector/collector_darwin.go:52-62 | at most one violation per line, and each one is what the parser made of a line the pre-filter passed |
| LogLines.LemmaParseLinesAppend | pkg/collector/collector_linux.go:64-79 | the loop works line by line: two blocks of lines give the first block's violations followed by the second's |
| LogLines.LemmaSkippedLineContributesNothing | pkg/collector/collector_linux.go:67-78 | a line that the pre-filter rejects or that does not parse contributes nothing, wherever it stands |
| LogLines.LemmaViolationsFromLines | pkg/collector/collector_linux.go:64-79 | error or not, there are no more violations than lines, and each is the parse of a line of the output that passed the pre-filter |
| LogLines.LemmaPartialResultsArePrefix | pkg/collector/collector_linux.go:81-83 | the violations returned with a scanning error are a prefix of those a scanner without a length limit would give: exactly those of the lines before the first over-long line, with the rest's violations making up the difference |
| LineScanner.Scan | pkg/collector/collector_linux.go:61-65 | the scan delivers the text's lines, carriage returns before newlines dropped, up to the first one too long for the 64 KiB buffer: every delivered line fits, and on failure the next segment is the first that does not; it fails exactly when such a line exists; empty text has no lines |
| LineScanner.LemmaSegmentsOfJoin | pkg/collector/collector_linux.go:61-65 | splitting newline-terminated lines at newlines gives the lines back |
| LineScanner.LemmaJoinOfSegments | pkg/collector/collector_linux.go:61-65 | joining the pieces of a text with newlines gives the text back, newline-terminated |
| GoTime.LemmaZeroInstantAtUtc | pkg/collector/collector_darwin.go:84 | read at offset zero, a valid time is Go's zero instant exactly when it is 0001-01-01 00:00:00 with no nanoseconds |
| Violations.Message | pkg/collector/collector_darwin.go:42-65 | a command failure's text begins `failed to execute` and the command and ends with the wrapped cause; a scanning failure's text begins `error scanning` and the source and ends with `bufio.Scanner: token too long` |
| Violations.LemmaMessageDistinguishes | pkg/collector/collector_linux.go:53-82 | a command failure and a scanning failure never give the same text, and two scanning failures with the same text name the same output |
| Chars.LemmaContainsLower | pkg/collector/collector_linux.go:68-71 | a word is contained in the lower-cased line exactly when it occurs at some position with every character of the line lower-cased to the word's |
| Chars.Contains | pkg/collector/collector_darwin.go:54 | strings.Contains: true exactly when the pattern occurs at some position |
| Chars.ToLower | pkg/collector/collector_linux.go:68 | strings.ToLower: same length, each character lower-cased on its own |
| GoTime.GetNum | pkg/collector/collector_linux.go:108 | time.Parse's number reader: fails exactly when there is no leading digit, or, for a fixed-width field, no second digit; otherwise reads two digits when there are two |
| GoTime.LookupMonth | pkg/collector/collector_linux.go:108 | time.Parse's month lookup: finds a month exactly when the first three characters equal some abbreviation ignoring ASCII case, and the month number it returns, from 1 to 12, is one whose abbreviation they equal |
| Chars.LemmaContainsLowerInfix | pkg/collector/collector_linux.go:68-71 | a word found in a lower-cased piece of a line is found in the lower-cased line |
| Chars.TrimSpace | pkg/collector/collector_darwin.go:100 | the trimmed path neither starts nor ends with white space |
| Chars.LemmaTrimSpaceInfix | pkg/collector/collector_darwin.go:100 | the trimmed path is a contiguous piece of the captured text, with only white space removed around it |

## Left out

- `formatDuration` and the `--since`/`--last` arguments: they only build command lines, and the commands themselves are parameters (`CommandOutcome`).
- Running journalctl, dmesg and `log show` (`exec.Command(...).Output()`): the model takes each command's outcome as input.
- `time.Now()`: the current year and the fallback timestamp `now` are parameters. A line-by-line Go loop reads the clock once per line; one `now` stands for all of them.
- `main.go`, the osquery table plugin and `test_collector.go`: they are outside the parsing core.
- LinuxCollector.InYear: time.Date in the local zone also shifts readings that fall in a daylight-saving gap; the host's zone rules are not modelled, only the Feb 29 to Mar 1 normalisation.
- LinuxCollector.JournalTimestamp: does not model the host's local zone; a reading is tagged `Local` with its wall-clock fields.
- DarwinCollector.ParseLogTime: when the parsed offset equals the host's local offset Go attaches time.Local; the model keeps it as `FixedOffset`, the same instant.
- DarwinCollector.ParseLogTime: the offset range check (hours above 24 or minutes above 60 rejected) follows current Go releases; older releases accepted any two-digit values.
- Chars.LowerChar: models unicode.ToLower only for characters whose lower case is ASCII (ASCII letters, U+0130 and U+212A); others are left as they are, which is exact for containment of the ASCII words the collectors look for.
- Invalid UTF-8 in command output: strings are sequences of Unicode characters, and the scanner's buffer limit is counted in UTF-8 bytes of those characters.
