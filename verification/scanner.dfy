/**
  The line scanner both collectors read command output with: a bufio.Scanner
  with its default split function (ScanLines) and default buffer over a
  string held in memory. Reading from memory cannot fail, so the only error
  it can report is a line longer than its buffer (bufio.ErrTooLong); it then
  stops, having delivered the lines before that one.
 */
module LineScanner {
  import opened Wrappers
  import opened Chars

  /** bufio.MaxScanTokenSize: a line of this many bytes or more, not counting
      its newline, does not fit the default scanner's buffer. */
  const MaxScanTokenSize: nat := 64 * 1024

  /** Bytes of c in UTF-8. */
  function Utf8Width(c: char): nat {
    if c as int < 0x80 then 1
    else if c as int < 0x800 then 2
    else if c as int < 0x1_0000 then 3
    else 4
  }

  function Utf8Length(s: string): (n: nat)
    ensures |s| <= n <= 4 * |s|
    decreases |s|
  {
    if s == [] then 0 else Utf8Width(s[0]) + Utf8Length(s[1..])
  }

  predicate TooLong(segment: string) {
    Utf8Length(segment) >= MaxScanTokenSize
  }

  /** The pieces of text between newline characters, in order. A final
      newline ends the last line rather than opening an empty one, and empty
      text has no lines. */
  function Segments(text: string): (r: seq<string>)
    ensures forall i :: 0 <= i < |r| ==> '\n' !in r[i]
    ensures text == [] <==> r == []
    decreases |text|
  {
    if text == [] then []
    else
      match IndexOf(text, "\n", 0)
      case None =>
        assert forall i :: 0 <= i < |text| ==> text[i] != '\n' by {
          forall i | 0 <= i < |text| ensures text[i] != '\n' {
            assert !Occurs(text, i, "\n");
          }
        }
        [text]
      case Some(k) =>
        assert forall i :: 0 <= i < k ==> text[i] != '\n' by {
          forall i | 0 <= i < k ensures text[i] != '\n' {
            assert !Occurs(text, i, "\n");
          }
        }
        [text[..k]] + Segments(text[k + 1..])
  }

  /** The inverse of Segments: each line followed by a newline. */
  function JoinLines(lines: seq<string>): string
    decreases |lines|
  {
    if lines == [] then [] else lines[0] + "\n" + JoinLines(lines[1..])
  }

  /** Splitting newline-terminated lines gives the lines back. */
  lemma {:induction false} LemmaSegmentsOfJoin(lines: seq<string>)
    requires forall i :: 0 <= i < |lines| ==> '\n' !in lines[i]
    ensures Segments(JoinLines(lines)) == lines
    decreases |lines|
  {
    if lines != [] {
      var text := JoinLines(lines);
      var k := |lines[0]|;
      assert text == lines[0] + ("\n" + JoinLines(lines[1..]));
      assert text[k] == '\n';
      assert Occurs(text, k, "\n");
      forall i | 0 <= i < k ensures !Occurs(text, i, "\n") {
        assert text[i] == lines[0][i];
      }
      assert IndexOf(text, "\n", 0) == Some(k);
      assert text[..k] == lines[0];
      assert text[k + 1..] == JoinLines(lines[1..]);
      LemmaSegmentsOfJoin(lines[1..]);
    }
  }

  lemma LemmaJoinCons(line: string, lines: seq<string>)
    ensures JoinLines([line] + lines) == line + "\n" + JoinLines(lines)
  {
    assert ([line] + lines)[1..] == lines;
  }

  /** The text with a final newline added unless it already has one. */
  function Terminated(text: string): string {
    if text == [] || text[|text| - 1] == '\n' then text else text + "\n"
  }

  /** Joining the lines of a text gives the text back, plus a newline when
      its last line was not terminated. */
  lemma {:induction false} LemmaJoinOfSegments(text: string)
    ensures JoinLines(Segments(text)) == Terminated(text)
    decreases |text|
  {
    if text != [] {
      var first := IndexOf(text, "\n", 0);
      if first.None? {
        assert !Occurs(text, |text| - 1, "\n");
        assert Segments(text) == [text];
        LemmaJoinCons(text, []);
      } else {
        var k := first.value;
        LemmaJoinOfSegments(text[k + 1..]);
        LemmaJoinStep(text, k);
      }
    }
  }

  /** Text with a newline at k, the first one, splits there. */
  lemma LemmaSegmentsStep(text: string, k: nat)
    requires IndexOf(text, "\n", 0) == Some(k)
    ensures k < |text| && text == text[..k] + "\n" + text[k + 1..]
    ensures Segments(text) == [text[..k]] + Segments(text[k + 1..])
  {
    assert Occurs(text, k, "\n");
    LemmaSplitAt(text, k);
  }

  lemma LemmaSplitAt(text: string, k: nat)
    requires Occurs(text, k, "\n")
    ensures k < |text| && text == text[..k] + "\n" + text[k + 1..]
  {
    assert text[k..k + 1] == "\n";
  }

  /** One step of LemmaJoinOfSegments: the first line, its newline, then the
      rest of the text. */
  lemma LemmaJoinStep(text: string, k: nat)
    requires IndexOf(text, "\n", 0) == Some(k)
    requires JoinLines(Segments(text[k + 1..])) == Terminated(text[k + 1..])
    ensures JoinLines(Segments(text)) == Terminated(text)
  {
    var rest := text[k + 1..];
    LemmaSegmentsStep(text, k);
    LemmaJoinCons(text[..k], Segments(rest));
    LemmaTerminatedStep(text[..k], rest);
  }

  /** Terminated looks only at the end of the text. */
  lemma LemmaTerminatedStep(line: string, rest: string)
    ensures line + "\n" + Terminated(rest) == Terminated(line + "\n" + rest)
  {
    var text := line + "\n" + rest;
    if rest != [] {
      assert rest[|rest| - 1] == text[|text| - 1];
      if text[|text| - 1] != '\n' {
        assert line + "\n" + (rest + "\n") == text + "\n";
      }
    }
  }

  /** ScanLines drops one carriage return before the newline. */
  function DropCR(segment: string): string {
    if |segment| > 0 && segment[|segment| - 1] == '\r' then segment[..|segment| - 1] else segment
  }

  /** The lines a scanner without a length limit would deliver. */
  function Lines(text: string): (r: seq<string>)
    ensures |r| == |Segments(text)|
  {
    var segments := Segments(text);
    seq(|segments|, i requires 0 <= i < |segments| => DropCR(segments[i]))
  }

  /** Some line of the text is too long for the scanner's buffer. */
  predicate HasOverlongLine(text: string) {
    exists i :: 0 <= i < |Segments(text)| && TooLong(Segments(text)[i])
  }

  /** Segment k is too long for the buffer and none before it is. */
  predicate FirstOverlong(text: string, k: int) {
    && 0 <= k < |Segments(text)| && TooLong(Segments(text)[k])
    && forall j :: 0 <= j < k ==> !TooLong(Segments(text)[j])
  }

  /** There is only one first over-long segment. */
  lemma LemmaFirstOverlongUnique(text: string, k: int, k': int)
    requires FirstOverlong(text, k) && FirstOverlong(text, k')
    ensures k == k'
  {
  }

  /** The lines a scan delivers, and whether it then stopped on an error. */
  datatype ScanResult = ScanResult(lines: seq<string>, fault: bool)

  function ScanSegments(segments: seq<string>): (r: ScanResult)
    ensures |r.lines| <= |segments|
    ensures forall i :: 0 <= i < |r.lines| ==> r.lines[i] == DropCR(segments[i]) && !TooLong(segments[i])
    ensures r.fault ==> |r.lines| < |segments| && TooLong(segments[|r.lines|])
    ensures !r.fault ==> |r.lines| == |segments|
    decreases |segments|
  {
    if segments == [] then ScanResult([], false)
    else if TooLong(segments[0]) then ScanResult([], true)
    else
      var rest := ScanSegments(segments[1..]);
      ScanResult([DropCR(segments[0])] + rest.lines, rest.fault)
  }

  /** Scanning text line by line: the lines delivered are the text's lines
      up to, and not including, the first one too long for the buffer; the
      scan reports an error exactly when such a line exists. */
  function Scan(text: string): (r: ScanResult)
    ensures |r.lines| <= |Lines(text)| && r.lines == Lines(text)[..|r.lines|]
    ensures r.fault <==> HasOverlongLine(text)
    ensures forall i :: 0 <= i < |r.lines| ==> !TooLong(Segments(text)[i])
    ensures r.fault ==> FirstOverlong(text, |r.lines|)
    ensures !r.fault ==> r.lines == Lines(text)
    ensures text == [] ==> r == ScanResult([], false)
  {
    var segments := Segments(text);
    var r := ScanSegments(segments);
    assert r.fault ==> TooLong(segments[|r.lines|]);
    assert !r.fault ==> forall i :: 0 <= i < |segments| ==> !TooLong(segments[i]);
    r
  }

  /** Each line a scan delivers is the line of the text at the same place. */
  lemma LemmaScannedLine(text: string, i: nat)
    requires i < |Scan(text).lines|
    ensures i < |Lines(text)| && Scan(text).lines[i] == Lines(text)[i]
  {
    var n := |Scan(text).lines|;
    assert Scan(text).lines == Lines(text)[..n];
  }
}
