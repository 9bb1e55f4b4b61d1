/**
  The record every platform collector produces, the timestamp it carries, the
  errors a collection can report, and the shape of a collection's result
  (pkg/collector/violation.go and the Collector interface of collector.go).
 */
module Violations {
  import opened Wrappers

  /** Where a wall-clock reading is anchored: the host's local zone, or a fixed
      offset east of UTC in seconds (as written in a "+0900"-style suffix). */
  datatype Zone = Local | FixedOffset(seconds: int)

  /** A point in time as its wall-clock fields plus its zone. */
  datatype Timestamp = Timestamp(
    year: int, month: int, day: int,
    hour: int, minute: int, second: int, nanosecond: int,
    zone: Zone)

  /** One parsed denial event; `rawLine` is the log line it came from. */
  datatype Violation = Violation(
    timestamp: Timestamp,
    processName: string,
    processID: string,
    operation: string,
    targetPath: string,
    denyCode: string,
    rawLine: string)

  /** What running an external log command gave back: its standard output,
      or a failure (missing tool, no permission, non-zero exit). */
  datatype CommandOutcome = Ran(stdout: string) | Failed(cause: string)

  /** The errors a collection reports. `ExecFailed` wraps the command's own
      failure; `ScanFailed` is the line scanner giving up on an over-long line. */
  datatype Error =
    | ExecFailed(command: string, cause: string)
    | ScanFailed(source: string)

  /** The text of the error scanner.Err() reports for an over-long line. */
  const TokenTooLong: string := "bufio.Scanner: token too long"

  /** `suffix` ends `s`. */
  predicate EndsWith(s: string, suffix: string) {
    |suffix| <= |s| && s[|s| - |suffix|..] == suffix
  }

  /** The error text the Go code builds with fmt.Errorf and %w: it names the
      step that failed and ends with the wrapped error's own text. */
  function Message(e: Error): (m: string)
    ensures e.ExecFailed? ==> "failed to execute " + e.command <= m && EndsWith(m, ": " + e.cause)
    ensures e.ScanFailed? ==> "error scanning " + e.source <= m && EndsWith(m, " output: " + TokenTooLong)
  {
    match e
    case ExecFailed(command, cause) => "failed to execute " + command + ": " + cause
    case ScanFailed(source) => "error scanning " + source + " output: " + TokenTooLong
  }

  /** A failed command and a failed scan never read alike, and a scan error
      names the output it was reading. */
  lemma LemmaMessageDistinguishes(a: Error, b: Error)
    requires Message(a) == Message(b)
    ensures a.ExecFailed? <==> b.ExecFailed?
    ensures a.ScanFailed? && b.ScanFailed? ==> a == b
  {
    assert Message(a)[0] == Message(b)[0];
    if a.ScanFailed? && b.ScanFailed? {
      LemmaScanMessageSource(a.source);
      LemmaScanMessageSource(b.source);
    }
  }

  lemma LemmaScanMessageSource(source: string)
    ensures var m := Message(ScanFailed(source));
            |m| == |source| + 24 + |TokenTooLong| && m[15..15 + |source|] == source
  {
  }

  /** The pair `([]Violation, error)` every CollectViolations returns:
      the violations gathered, in source order, and an optional error. */
  datatype Collected = Collected(violations: seq<Violation>, err: Option<Error>)
}
