/**
  The loop both parseJournalOutput and parseLogOutput run: scan the command's
  output line by line, skip the lines a cheap substring test rejects, parse
  the rest, keep the violations in the order of their lines, and report a
  scanning error together with what was gathered before it.

  The two platform collectors differ only in the pre-filter, the line parser
  and the word naming the source in the error, so the loop is stated once,
  over those three as parameters.
 */
module LogLines {
  import opened Wrappers
  import opened Violations
  import opened LineScanner

  /** What one line contributes: its violation, when it passes the pre-filter
      and parses. */
  function ParseLine(line: string, keep: string -> bool, parse: string -> Option<Violation>): (r: seq<Violation>)
    ensures |r| <= 1
    ensures r != [] <==> keep(line) && parse(line).Some?
    ensures r != [] ==> r == [parse(line).value]
  {
    if keep(line) && parse(line).Some? then [parse(line).value] else []
  }

  /** The violations of the lines that pass the pre-filter, in line order. */
  function ParseLines(lines: seq<string>, keep: string -> bool, parse: string -> Option<Violation>): (r: seq<Violation>)
    ensures |r| <= |lines|
    ensures forall v :: v in r ==> exists i :: 0 <= i < |lines| && keep(lines[i]) && parse(lines[i]) == Some(v)
    decreases |lines|
  {
    if lines == [] then []
    else
      var first := ParseLine(lines[0], keep, parse);
      var rest := ParseLines(lines[1..], keep, parse);
      assert forall v :: v in rest ==> exists i :: 0 <= i < |lines| && keep(lines[i]) && parse(lines[i]) == Some(v) by {
        forall v | v in rest ensures exists i :: 0 <= i < |lines| && keep(lines[i]) && parse(lines[i]) == Some(v) {
          var i :| 0 <= i < |lines[1..]| && keep(lines[1..][i]) && parse(lines[1..][i]) == Some(v);
          assert lines[1..][i] == lines[i + 1];
        }
      }
      first + rest
  }

  /** Parsing is line by line: two blocks of lines give the violations of the
      first followed by those of the second. */
  lemma {:induction false} LemmaParseLinesAppend(a: seq<string>, b: seq<string>, keep: string -> bool, parse: string -> Option<Violation>)
    ensures ParseLines(a + b, keep, parse) == ParseLines(a, keep, parse) + ParseLines(b, keep, parse)
    decreases |a|
  {
    if a == [] {
      assert a + b == b;
    } else {
      assert (a + b)[0] == a[0];
      assert (a + b)[1..] == a[1..] + b;
      LemmaParseLinesAppend(a[1..], b, keep, parse);
      var first := ParseLine(a[0], keep, parse);
      assert first + ParseLines(a[1..], keep, parse) + ParseLines(b, keep, parse)
          == first + (ParseLines(a[1..], keep, parse) + ParseLines(b, keep, parse));
    }
  }

  /** A one-line block gives what that line contributes. */
  lemma LemmaParseOneLine(line: string, keep: string -> bool, parse: string -> Option<Violation>)
    ensures ParseLines([line], keep, parse) == ParseLine(line, keep, parse)
  {
    assert [line][1..] == [];
    assert ParseLine(line, keep, parse) + [] == ParseLine(line, keep, parse);
  }

  /** A line the pre-filter rejects, or the parser refuses, contributes
      nothing, wherever it stands. */
  lemma LemmaSkippedLineContributesNothing(a: seq<string>, line: string, b: seq<string>, keep: string -> bool, parse: string -> Option<Violation>)
    requires !keep(line) || parse(line).None?
    ensures ParseLines(a + [line] + b, keep, parse) == ParseLines(a, keep, parse) + ParseLines(b, keep, parse)
  {
    LemmaParseLinesAppend(a + [line], b, keep, parse);
    LemmaParseLinesAppend(a, [line], keep, parse);
    LemmaParseOneLine(line, keep, parse);
    assert ParseLines(a, keep, parse) + [] == ParseLines(a, keep, parse);
  }

  /** The pre-filter that lets every line through. */
  predicate AnyLine(line: string) {
    true
  }

  /** A pre-filter that passes every line the parser accepts only saves
      work: the result is that of the parser alone. */
  lemma {:induction false} LemmaTransparentFilter(lines: seq<string>, keep: string -> bool, parse: string -> Option<Violation>)
    requires forall i :: 0 <= i < |lines| && parse(lines[i]).Some? ==> keep(lines[i])
    ensures ParseLines(lines, keep, parse) == ParseLines(lines, AnyLine, parse)
    decreases |lines|
  {
    if lines != [] {
      assert forall i :: 0 <= i < |lines[1..]| ==> lines[1..][i] == lines[i + 1];
      LemmaTransparentFilter(lines[1..], keep, parse);
    }
  }

  /** Lines the parser refuses, all of them, give no violations. */
  lemma {:induction false} LemmaNothingParses(lines: seq<string>, keep: string -> bool, parse: string -> Option<Violation>)
    requires forall i :: 0 <= i < |lines| ==> parse(lines[i]).None?
    ensures ParseLines(lines, keep, parse) == []
    decreases |lines|
  {
    if lines != [] {
      assert forall i :: 0 <= i < |lines[1..]| ==> lines[1..][i] == lines[i + 1];
      LemmaNothingParses(lines[1..], keep, parse);
    }
  }

  /** The whole loop over a command's output: the violations of the lines the
      scanner delivers, and ScanFailed(source) when it gave up on a line too
      long for its buffer. */
  function ParseOutput(output: string, source: string, keep: string -> bool, parse: string -> Option<Violation>): (r: Collected)
    ensures r.err.Some? <==> HasOverlongLine(output)
    ensures r.err.Some? ==> r.err.value == ScanFailed(source)
    ensures r.err.None? ==> r.violations == ParseLines(Lines(output), keep, parse)
    ensures r.err.Some? ==> exists k :: FirstOverlong(output, k) && r.violations == ParseLines(Lines(output)[..k], keep, parse)
    ensures output == [] ==> r == Collected([], None)
  {
    var scan := Scan(output);
    assert scan.fault ==> FirstOverlong(output, |scan.lines|) && scan.lines == Lines(output)[..|scan.lines|];
    Collected(ParseLines(scan.lines, keep, parse), if scan.fault then Some(ScanFailed(source)) else None)
  }

  /** Every violation reported, error or not, is what the parser made of
      one of the output's lines, a line the pre-filter passed. */
  lemma LemmaViolationsFromLines(output: string, source: string, keep: string -> bool, parse: string -> Option<Violation>)
    ensures var r := ParseOutput(output, source, keep, parse);
            && |r.violations| <= |Lines(output)|
            && forall v :: v in r.violations ==>
                 exists line :: line in Lines(output) && keep(line) && parse(line) == Some(v)
  {
    var scan := Scan(output);
    var violations := ParseLines(scan.lines, keep, parse);
    forall v | v in violations ensures exists line :: line in Lines(output) && keep(line) && parse(line) == Some(v) {
      var i :| 0 <= i < |scan.lines| && keep(scan.lines[i]) && parse(scan.lines[i]) == Some(v);
      LemmaScannedLine(output, i);
      var line := Lines(output)[i];
      assert line in Lines(output) && keep(line) && parse(line) == Some(v);
    }
  }

  /** After a scanning error the violations reported are those of the lines
      before the first over-long one: a prefix of what a scanner without a
      length limit would report, and exactly the part of it those lines give. */
  lemma LemmaPartialResultsArePrefix(output: string, source: string, keep: string -> bool, parse: string -> Option<Violation>)
    ensures var r := ParseOutput(output, source, keep, parse);
            var all := ParseLines(Lines(output), keep, parse);
            |r.violations| <= |all| && r.violations == all[..|r.violations|]
    ensures var r := ParseOutput(output, source, keep, parse);
            r.err.Some? ==> forall k :: FirstOverlong(output, k) ==>
              && r.violations == ParseLines(Lines(output)[..k], keep, parse)
              && ParseLines(Lines(output), keep, parse) == r.violations + ParseLines(Lines(output)[k..], keep, parse)
  {
    var lines := Lines(output);
    var n := |Scan(output).lines|;
    assert lines == lines[..n] + lines[n..];
    LemmaParseLinesAppend(lines[..n], lines[n..], keep, parse);
    forall k | FirstOverlong(output, k) && Scan(output).fault ensures k == n {
      LemmaFirstOverlongUnique(output, k, n);
    }
  }
}
