/**
  The macOS collector (pkg/collector/collector_darwin.go): lines of
  `log show --style syslog` such as

    2025-11-03 16:25:43.448666+0900  localhost kernel[0]: (Sandbox) Sandbox: cat(13276) deny(1) file-read-data /Users/a/.ssh/config

  describe a violation when the sandbox pattern finds `Sandbox:`, a process
  name and id, a deny code, an operation and a path; the leading timestamp is
  read when it is there and parses, and the clock reading `now` stands in
  otherwise.

  As for the journal, the two patterns are predicates over the positions of
  their groups (IsSandboxMatch, IsStampMatch), and the matchers are shown to
  compute the match Go's regexp engine reports.
 */
module DarwinCollector {
  import opened Wrappers
  import opened Chars
  import opened Violations
  import opened LineScanner
  import opened GoTime
  import LogLines

  // ---------------------------------------------------------------------
  // The sandbox pattern `Sandbox:\s+(\w+)\((\d+)\)\s+deny\((\d+)\)\s+([\w-]+)\s+(.+)$`
  // ---------------------------------------------------------------------

  const SandboxTag: string := "Sandbox:"
  const DenyTag: string := "deny("

  /** Where a sandbox match begins, and where its groups begin and end: the
      process name line[nameStart..nameEnd], the process id
      line[nameEnd + 1..pidEnd], the deny code line[denyStart + 5..codeEnd],
      the operation line[opStart..opEnd] and the path line[restStart..]. */
  datatype SandboxSpans = SandboxSpans(
    start: nat, nameStart: nat, nameEnd: nat, pidEnd: nat,
    denyStart: nat, codeEnd: nat, opStart: nat, opEnd: nat, restStart: nat)

  /** `Sandbox:\s+(\w+)\((\d+)\)` at `start`. */
  predicate IsProcessPart(line: string, start: int, nameStart: int, nameEnd: int, pidEnd: int) {
    && Occurs(line, start, SandboxTag)
    && start + 8 < nameStart && AllIn(line, start + 8, nameStart, Space)
    && nameStart < nameEnd && AllIn(line, nameStart, nameEnd, Word)
    && nameEnd < |line| && line[nameEnd] == '('
    && nameEnd + 1 < pidEnd && AllIn(line, nameEnd + 1, pidEnd, Digit)
    && pidEnd < |line| && line[pidEnd] == ')'
  }

  /** `\s+deny\((\d+)\)` from `from` on. */
  predicate IsDenyPart(line: string, from: int, denyStart: int, codeEnd: int) {
    && 0 <= from < denyStart && AllIn(line, from, denyStart, Space)
    && Occurs(line, denyStart, DenyTag)
    && denyStart + 5 < codeEnd && AllIn(line, denyStart + 5, codeEnd, Digit)
    && codeEnd < |line| && line[codeEnd] == ')'
  }

  /** `\s+([\w-]+)` from `from` on. */
  predicate IsOperationPart(line: string, from: int, opStart: int, opEnd: int) {
    && 0 <= from < opStart && AllIn(line, from, opStart, Space)
    && opStart < opEnd && AllIn(line, opStart, opEnd, WordOrDash)
  }

  /** The sandbox pattern matches line[m.start..] to the end with these
      group bounds. */
  predicate IsSandboxMatch(line: string, m: SandboxSpans) {
    && IsProcessPart(line, m.start, m.nameStart, m.nameEnd, m.pidEnd)
    && IsDenyPart(line, m.pidEnd + 1, m.denyStart, m.codeEnd)
    && IsOperationPart(line, m.codeEnd + 1, m.opStart, m.opEnd)
    && IsSpacesThenRest(line, m.opEnd, m.restStart)
  }

  /** The match the regexp engine reports: the leftmost one, and among those
      starting there the one whose greedy `\s+` leaves the shortest path. */
  ghost predicate IsChosenSandbox(line: string, m: SandboxSpans) {
    && IsSandboxMatch(line, m)
    && forall m' :: IsSandboxMatch(line, m') ==>
         m.start < m'.start || (m.start == m'.start && m'.restStart <= m.restStart)
  }

  /** Where the process name and id end: fields of SandboxSpans. */
  datatype ProcessSpans = ProcessSpans(nameStart: nat, nameEnd: nat, pidEnd: nat)

  /** Where `deny(` starts and the deny code ends. */
  datatype DenySpans = DenySpans(denyStart: nat, codeEnd: nat)

  /** Where the operation begins and ends. */
  datatype OperationSpans = OperationSpans(opStart: nat, opEnd: nat)

  function MatchProcessPart(line: string, start: nat): Option<ProcessSpans>
  {
    if !HasAt(line, start, SandboxTag) then None
    else
      var nameStart := Span(line, start + 8, Space);
      var nameEnd := Span(line, nameStart, Word);
      if start + 8 < nameStart < nameEnd < |line| && line[nameEnd] == '(' then
        var pidEnd := Span(line, nameEnd + 1, Digit);
        if nameEnd + 1 < pidEnd < |line| && line[pidEnd] == ')' then Some(ProcessSpans(nameStart, nameEnd, pidEnd)) else None
      else None
  }

  function MatchDenyPart(line: string, from: nat): Option<DenySpans>
  {
    if |line| < from then None
    else
      var denyStart := Span(line, from, Space);
      if from < denyStart && HasAt(line, denyStart, DenyTag) then
        var codeEnd := Span(line, denyStart + 5, Digit);
        if denyStart + 5 < codeEnd < |line| && line[codeEnd] == ')' then Some(DenySpans(denyStart, codeEnd)) else None
      else None
  }

  function MatchOperationPart(line: string, from: nat): Option<OperationSpans>
  {
    if |line| < from then None
    else
      var opStart := Span(line, from, Space);
      var opEnd := Span(line, opStart, WordOrDash);
      if from < opStart < opEnd then Some(OperationSpans(opStart, opEnd)) else None
  }

  /** The match starting at `start`, if there is one. */
  function MatchSandboxAt(line: string, start: nat): Option<SandboxSpans>
  {
    match MatchProcessPart(line, start)
    case None => None
    case Some(process) => MatchAfterProcess(line, start, process)
  }

  /** The deny code, the operation and the path once the process is matched. */
  function MatchAfterProcess(line: string, start: nat, process: ProcessSpans): Option<SandboxSpans>
  {
    match MatchDenyPart(line, process.pidEnd + 1)
    case None => None
    case Some(deny) => MatchAfterDeny(line, start, process, deny)
  }

  /** The operation and the path once the deny code is matched. */
  function MatchAfterDeny(line: string, start: nat, process: ProcessSpans, deny: DenySpans): Option<SandboxSpans>
  {
    match MatchOperationPart(line, deny.codeEnd + 1)
    case None => None
    case Some(op) =>
      match SpacesThenRest(line, op.opEnd)
      case None => None
      case Some(restStart) =>
        Some(SandboxSpans(start, process.nameStart, process.nameEnd, process.pidEnd,
                          deny.denyStart, deny.codeEnd, op.opStart, op.opEnd, restStart))
  }

  /** What the matcher finds at `start` is a match of the pattern there. */
  lemma LemmaMatchSandboxAtSound(line: string, start: nat)
    ensures MatchSandboxAt(line, start).Some? ==>
              IsSandboxMatch(line, MatchSandboxAt(line, start).value) && MatchSandboxAt(line, start).value.start == start
  {
    if MatchSandboxAt(line, start).Some? {
      var process := MatchProcessPart(line, start).value;
      var deny := MatchDenyPart(line, process.pidEnd + 1).value;
      LemmaProcessPartSound(line, start);
      LemmaDenyPartSound(line, process.pidEnd + 1);
      LemmaAfterDenySound(line, start, process, deny);
      assert MatchSandboxAt(line, start) == MatchAfterDeny(line, start, process, deny);
    }
  }

  /** The last two stages keep the pieces already found and add an operation
      and a path that match. */
  lemma LemmaAfterDenySound(line: string, start: nat, process: ProcessSpans, deny: DenySpans)
    requires MatchAfterDeny(line, start, process, deny).Some?
    ensures var r := MatchAfterDeny(line, start, process, deny).value;
            && r == SandboxSpans(start, process.nameStart, process.nameEnd, process.pidEnd,
                                 deny.denyStart, deny.codeEnd, r.opStart, r.opEnd, r.restStart)
            && IsOperationPart(line, deny.codeEnd + 1, r.opStart, r.opEnd)
            && IsSpacesThenRest(line, r.opEnd, r.restStart)
  {
    LemmaOperationPartSound(line, deny.codeEnd + 1);
  }

  lemma LemmaProcessPartSound(line: string, start: nat)
    requires MatchProcessPart(line, start).Some?
    ensures var p := MatchProcessPart(line, start).value; IsProcessPart(line, start, p.nameStart, p.nameEnd, p.pidEnd)
  {
    var p := MatchProcessPart(line, start).value;
    LemmaSpan(line, start + 8, Space);
    LemmaSpan(line, p.nameStart, Word);
    LemmaSpan(line, p.nameEnd + 1, Digit);
  }

  lemma LemmaDenyPartSound(line: string, from: nat)
    requires MatchDenyPart(line, from).Some?
    ensures var d := MatchDenyPart(line, from).value; IsDenyPart(line, from, d.denyStart, d.codeEnd)
  {
    var d := MatchDenyPart(line, from).value;
    LemmaSpan(line, from, Space);
    LemmaSpan(line, d.denyStart + 5, Digit);
  }

  lemma LemmaOperationPartSound(line: string, from: nat)
    requires MatchOperationPart(line, from).Some?
    ensures var o := MatchOperationPart(line, from).value; IsOperationPart(line, from, o.opStart, o.opEnd)
  {
    var o := MatchOperationPart(line, from).value;
    LemmaSpan(line, from, Space);
    LemmaSpan(line, o.opStart, WordOrDash);
  }

  lemma LemmaProcessPartForced(line: string, m: SandboxSpans)
    requires IsSandboxMatch(line, m)
    ensures MatchProcessPart(line, m.start) == Some(ProcessSpans(m.nameStart, m.nameEnd, m.pidEnd))
  {
    assert In(line[m.nameStart], Word);
    LemmaSpanStops(line, m.start + 8, m.nameStart, Space);
    LemmaSpanStops(line, m.nameStart, m.nameEnd, Word);
    LemmaSpanStops(line, m.nameEnd + 1, m.pidEnd, Digit);
  }

  lemma LemmaDenyPartForced(line: string, m: SandboxSpans)
    requires IsSandboxMatch(line, m)
    ensures MatchDenyPart(line, m.pidEnd + 1) == Some(DenySpans(m.denyStart, m.codeEnd))
  {
    assert line[m.denyStart] == line[m.denyStart..m.denyStart + 5][0] == 'd';
    LemmaSpanStops(line, m.pidEnd + 1, m.denyStart, Space);
    LemmaSpanStops(line, m.denyStart + 5, m.codeEnd, Digit);
  }

  lemma LemmaOperationPartForced(line: string, m: SandboxSpans)
    requires IsSandboxMatch(line, m)
    ensures MatchOperationPart(line, m.codeEnd + 1) == Some(OperationSpans(m.opStart, m.opEnd))
  {
    assert In(line[m.opStart], WordOrDash);
    assert In(line[m.opEnd], Space);
    LemmaSpanStops(line, m.codeEnd + 1, m.opStart, Space);
    LemmaSpanStops(line, m.opStart, m.opEnd, WordOrDash);
  }

  /** The last two stages of the matcher assemble what they find; the path
      starts where SpacesThenRest puts it. */
  lemma LemmaAfterDenyOfParts(line: string, start: nat, process: ProcessSpans, deny: DenySpans, op: OperationSpans, restStart: nat)
    requires MatchOperationPart(line, deny.codeEnd + 1) == Some(op)
    requires SpacesThenRest(line, op.opEnd) == Some(restStart)
    ensures MatchAfterDeny(line, start, process, deny)
              == Some(SandboxSpans(start, process.nameStart, process.nameEnd, process.pidEnd,
                                   deny.denyStart, deny.codeEnd, op.opStart, op.opEnd, restStart))
  {
  }

  /** The matcher assembles the pieces its stages find. */
  lemma LemmaMatchSandboxAtOfParts(line: string, start: nat, process: ProcessSpans, deny: DenySpans, found: SandboxSpans)
    requires MatchProcessPart(line, start) == Some(process)
    requires MatchDenyPart(line, process.pidEnd + 1) == Some(deny)
    requires MatchAfterDeny(line, start, process, deny) == Some(found)
    ensures MatchSandboxAt(line, start) == Some(found)
  {
  }

  /** Any match agrees with the one computed at its start on every piece but
      the path start, which the computed one puts as late as possible. */
  lemma LemmaSandboxAtForced(line: string, m: SandboxSpans)
    requires IsSandboxMatch(line, m)
    ensures MatchSandboxAt(line, m.start).Some?
    ensures MatchSandboxAt(line, m.start).value == m.(restStart := MatchSandboxAt(line, m.start).value.restStart)
    ensures m.restStart <= MatchSandboxAt(line, m.start).value.restStart
  {
    LemmaProcessPartForced(line, m);
    LemmaDenyPartForced(line, m);
    LemmaOperationPartForced(line, m);
    LemmaSandboxOfForcedParts(line, m);
  }

  /** The last step of LemmaSandboxAtForced, once the stages are known to
      find the pieces of m. */
  lemma LemmaSandboxOfForcedParts(line: string, m: SandboxSpans)
    requires MatchProcessPart(line, m.start) == Some(ProcessSpans(m.nameStart, m.nameEnd, m.pidEnd))
    requires MatchDenyPart(line, m.pidEnd + 1) == Some(DenySpans(m.denyStart, m.codeEnd))
    requires MatchOperationPart(line, m.codeEnd + 1) == Some(OperationSpans(m.opStart, m.opEnd))
    requires IsSpacesThenRest(line, m.opEnd, m.restStart)
    ensures MatchSandboxAt(line, m.start).Some?
    ensures MatchSandboxAt(line, m.start).value == m.(restStart := MatchSandboxAt(line, m.start).value.restStart)
    ensures m.restStart <= MatchSandboxAt(line, m.start).value.restStart
  {
    LemmaSpacesThenRestFound(line, m.opEnd, m.restStart);
    var restStart := SpacesThenRest(line, m.opEnd).value;
    var process := ProcessSpans(m.nameStart, m.nameEnd, m.pidEnd);
    var deny := DenySpans(m.denyStart, m.codeEnd);
    var op := OperationSpans(m.opStart, m.opEnd);
    assert MatchOperationPart(line, deny.codeEnd + 1) == Some(op);
    assert SpacesThenRest(line, op.opEnd) == Some(restStart);
    LemmaAfterDenyOfParts(line, m.start, process, deny, op, restStart);
    var found := SandboxSpans(m.start, m.nameStart, m.nameEnd, m.pidEnd, m.denyStart, m.codeEnd, m.opStart, m.opEnd, restStart);
    assert found == m.(restStart := restStart);
    LemmaMatchSandboxAtOfParts(line, m.start, process, deny, found);
  }

  /** No match starts where the matcher finds none. */
  lemma LemmaNoMatchAt(line: string, start: nat)
    requires MatchSandboxAt(line, start).None?
    ensures forall m :: IsSandboxMatch(line, m) ==> m.start != start
  {
    forall m | IsSandboxMatch(line, m) ensures m.start != start {
      LemmaSandboxAtForced(line, m);
    }
  }

  /** The leftmost match starting at i or later: what FindStringSubmatch
      searches for when it tries each start position in turn. */
  function FindSandbox(line: string, i: nat): (r: Option<SandboxSpans>)
    requires i <= |line|
    ensures r.Some? ==> IsSandboxMatch(line, r.value) && i <= r.value.start
    ensures r.Some? ==> MatchSandboxAt(line, r.value.start) == r
    ensures r.Some? ==> forall m :: IsSandboxMatch(line, m) && i <= m.start ==> r.value.start <= m.start
    ensures r.None? ==> forall m :: IsSandboxMatch(line, m) ==> m.start < i
    decreases |line| - i
  {
    LemmaMatchSandboxAtSound(line, i);
    match MatchSandboxAt(line, i)
    case Some(m) => Some(m)
    case None =>
      LemmaNoMatchAt(line, i);
      if i == |line| then None else FindSandbox(line, i + 1)
  }

  /** Every match starts no earlier than the one FindSandbox finds, and one
      starting at the same place has a path starting no later. */
  lemma LemmaFoundPrecedes(line: string, m: SandboxSpans)
    requires IsSandboxMatch(line, m)
    ensures var r := FindSandbox(line, 0);
            && r.Some?
            && (r.value.start < m.start || (r.value.start == m.start && m.restStart <= r.value.restStart))
  {
    LemmaSandboxAtForced(line, m);
  }

  lemma LemmaChosenIsFound(line: string, m: SandboxSpans)
    requires IsChosenSandbox(line, m)
    ensures FindSandbox(line, 0) == Some(m)
  {
    LemmaFoundPrecedes(line, m);
    var r := FindSandbox(line, 0).value;
    assert m.start <= r.start;
    LemmaSandboxAtForced(line, m);
    assert r == m.(restStart := r.restStart);
  }

  /** FindSandbox from the start of the line finds the match the regexp
      engine reports, and nothing when the pattern matches nowhere. */
  lemma LemmaFindSandboxChosen(line: string)
    ensures FindSandbox(line, 0).Some? ==> IsChosenSandbox(line, FindSandbox(line, 0).value)
    ensures FindSandbox(line, 0).None? <==> forall m :: !IsSandboxMatch(line, m)
    ensures forall m :: IsChosenSandbox(line, m) ==> FindSandbox(line, 0) == Some(m)
  {
    forall m | IsSandboxMatch(line, m)
      ensures var r := FindSandbox(line, 0);
              && r.Some?
              && (r.value.start < m.start || (r.value.start == m.start && m.restStart <= r.value.restStart))
    {
      LemmaFoundPrecedes(line, m);
    }
    forall m | IsChosenSandbox(line, m) ensures FindSandbox(line, 0) == Some(m) {
      LemmaChosenIsFound(line, m);
    }
  }

  // ---------------------------------------------------------------------
  // The timestamp pattern `^(\d{4}-\d{2}-\d{2}\s+\d{2}:\d{2}:\d{2}\.\d+[+-]\d{4})`
  // ---------------------------------------------------------------------

  /** `\d{4}-\d{2}-\d{2}` at the start of the line. */
  predicate IsDateAt(line: string) {
    && 10 <= |line|
    && IsDigit(line[0]) && IsDigit(line[1]) && IsDigit(line[2]) && IsDigit(line[3]) && line[4] == '-'
    && IsDigit(line[5]) && IsDigit(line[6]) && line[7] == '-' && IsDigit(line[8]) && IsDigit(line[9])
  }

  /** `[+-]\d{4}` at position i. */
  predicate IsOffsetAt(line: string, i: int) {
    && 0 <= i && i + 5 <= |line| && (line[i] == '+' || line[i] == '-')
    && IsDigit(line[i + 1]) && IsDigit(line[i + 2]) && IsDigit(line[i + 3]) && IsDigit(line[i + 4])
  }

  /** The timestamp pattern matches with the clock at clockStart and the
      fraction's digits ending at fracEnd; the group is line[..fracEnd + 5]. */
  predicate IsStampMatch(line: string, clockStart: int, fracEnd: int) {
    && IsDateAt(line)
    && 10 < clockStart && AllIn(line, 10, clockStart, Space) && IsClockAt(line, clockStart)
    && clockStart + 8 < |line| && line[clockStart + 8] == '.'
    && clockStart + 9 < fracEnd && AllIn(line, clockStart + 9, fracEnd, Digit)
    && IsOffsetAt(line, fracEnd)
  }

  function MatchStamp(line: string): (r: Option<(nat, nat)>)
    ensures r.Some? ==> IsStampMatch(line, r.value.0, r.value.1)
  {
    if !IsDateAt(line) then None
    else
      var clockStart := Span(line, 10, Space);
      LemmaSpan(line, 10, Space);
      if 10 < clockStart && IsClockAt(line, clockStart) && clockStart + 9 < |line| && line[clockStart + 8] == '.' then
        var fracEnd := Span(line, clockStart + 9, Digit);
        LemmaSpan(line, clockStart + 9, Digit);
        if clockStart + 9 < fracEnd && IsOffsetAt(line, fracEnd) then Some((clockStart, fracEnd)) else None
      else None
  }

  /** The timestamp pattern has at most one match, and MatchStamp finds it. */
  lemma LemmaStampForced(line: string, clockStart: nat, fracEnd: nat)
    requires IsStampMatch(line, clockStart, fracEnd)
    ensures MatchStamp(line) == Some((clockStart, fracEnd))
  {
    LemmaSpanStops(line, 10, clockStart, Space);
    assert !In(line[fracEnd], Digit);
    LemmaSpanStops(line, clockStart + 9, fracEnd, Digit);
  }

  // ---------------------------------------------------------------------
  // The timestamp: time.Parse("2006-01-02 15:04:05.999999-0700", …)
  // ---------------------------------------------------------------------

  /** What time.Parse accepts with this layout: a four-digit year, a date that
      exists in it, a time of day, a fraction of a second, and an offset of at
      most 24 hours and 60 minutes either way. */
  predicate ValidLogTime(t: Timestamp) {
    && 0 <= t.year < 10000 && 1 <= t.month <= 12 && 1 <= t.day <= DaysIn(t.month, t.year)
    && 0 <= t.hour < 24 && 0 <= t.minute < 60 && 0 <= t.second < 60
    && 0 <= t.nanosecond < 1_000_000_000
    && t.zone.FixedOffset? && t.zone.seconds % 60 == 0 && -90000 <= t.zone.seconds <= 90000
  }

  /** What the date fields leave: year, month, day and the rest of the value. */
  datatype DateRead = DateRead(year: nat, month: nat, day: nat, rest: string)

  /** What the time-of-day fields leave. */
  datatype ClockRead = ClockRead(hour: nat, minute: nat, second: nat, rest: string)

  /** The fraction of a second, in nanoseconds, and what follows it. */
  datatype FractionRead = FractionRead(nanosecond: nat, rest: string)

  /** The offset in seconds east of UTC, and what follows it. */
  datatype ZoneRead = ZoneRead(offset: int, rest: string)

  /** "2006-01-02": exactly four digits of year, `-`, two-digit month in
      range, `-`, two-digit day. */
  function ReadDate(v: string): (r: Option<DateRead>)
    ensures r.Some? ==> r.value.year < 10000 && 1 <= r.value.month <= 12
  {
    var year :- ReadYear(v);
    var afterYear :- Expect(year.rest, '-');
    var month :- GetNum(afterYear, true);
    if month.value < 1 || 12 < month.value then None
    else
      var afterMonth :- Expect(month.rest, '-');
      var day :- GetNum(afterMonth, true);
      Some(DateRead(year.value, month.value, day.value, day.rest))
  }

  /** " 15:04:05": runs of spaces, an hour below 24, two-digit minute and
      second below 60. */
  function ReadClock(v: string): (r: Option<ClockRead>)
    ensures r.Some? ==> r.value.hour < 24 && r.value.minute < 60 && r.value.second < 60
  {
    var afterDate :- SkipSpaces(v);
    var hour :- GetNum(afterDate, false);
    var afterHour :- Expect(hour.rest, ':');
    var minute :- GetNum(afterHour, true);
    var afterMinute :- Expect(minute.rest, ':');
    var second :- GetNum(afterMinute, true);
    if hour.value < 24 && minute.value < 60 && second.value < 60
    then Some(ClockRead(hour.value, minute.value, second.value, second.rest))
    else None
  }

  /** The first nine digits of a fraction, scaled to nanoseconds: Go's
      parseNanoseconds. */
  function Nanoseconds(digits: string): (n: nat)
    requires AllDigits(digits)
    ensures n < 1_000_000_000
  {
    var kept := if |digits| <= 9 then digits else digits[..9];
    assert AllDigits(kept);
    LemmaNumBound(kept);
    LemmaScaledBelow(Num(kept), |kept|, 9 - |kept|);
    assert Pow10(9) == 1_000_000_000;
    Num(kept) * Pow10(9 - |kept|)
  }

  /** ".999999": optional; when `.` or `,` and a digit follow, every digit is
      consumed and the first nine count. */
  function ReadFraction(v: string): (r: FractionRead)
    ensures r.nanosecond < 1_000_000_000
  {
    if |v| < 2 || (v[0] != '.' && v[0] != ',') || !IsDigit(v[1]) then FractionRead(0, v)
    else
      var e := Span(v, 1, Digit);
      LemmaSpan(v, 1, Digit);
      var digits := v[1..e];
      assert forall k :: 0 <= k < |digits| ==> digits[k] == v[k + 1] && In(v[k + 1], Digit);
      FractionRead(Nanoseconds(digits), v[e..])
  }

  /** "-0700": a sign, two-digit hours of at most 24 and two-digit minutes of
      at most 60; the offset in seconds east of UTC. */
  function ReadZone(v: string): (r: Option<ZoneRead>)
    ensures r.Some? ==> r.value.offset % 60 == 0 && -90000 <= r.value.offset <= 90000
  {
    if |v| < 5 then None
    else
      var hours :- GetNum(v[1..3], true);
      var minutes :- GetNum(v[3..5], true);
      var east := hours.value * 3600 + minutes.value * 60;
      if 24 < hours.value || 60 < minutes.value then None
      else if v[0] == '+' then Some(ZoneRead(east, v[5..]))
      else if v[0] == '-' then Some(ZoneRead(-east, v[5..]))
      else None
  }

  /** time.Parse with layout "2006-01-02 15:04:05.999999-0700". The reading is
      given the parsed offset as its zone. */
  function ParseLogTime(v: string): (r: Option<Timestamp>)
    ensures r.Some? ==> ValidLogTime(r.value)
  {
    match ReadDate(v)
    case None => None
    case Some(date) => ParseAfterDate(date)
  }

  /** The rest of time.Parse once the date is read. */
  function ParseAfterDate(date: DateRead): (r: Option<Timestamp>)
    requires date.year < 10000 && 1 <= date.month <= 12
    ensures r.Some? ==> ValidLogTime(r.value)
  {
    match ReadClock(date.rest)
    case None => None
    case Some(clock) => ParseAfterClock(date, clock)
  }

  /** The rest of time.Parse once the time of day is read: the fraction, the
      offset, nothing left over, and a day that exists in the month. */
  function ParseAfterClock(date: DateRead, clock: ClockRead): (r: Option<Timestamp>)
    requires date.year < 10000 && 1 <= date.month <= 12
    requires clock.hour < 24 && clock.minute < 60 && clock.second < 60
    ensures r.Some? ==> ValidLogTime(r.value)
  {
    var fraction := ReadFraction(clock.rest);
    match ReadZone(fraction.rest)
    case None => None
    case Some(zone) =>
      if zone.rest != [] || date.day < 1 || DaysIn(date.month, date.year) < date.day then None
      else Some(Timestamp(date.year, date.month, date.day, clock.hour, clock.minute, clock.second,
                          fraction.nanosecond, FixedOffset(zone.offset)))
  }

  /** The date as log show prints it, "2025-11-03". */
  function FormatDate(year: nat, month: nat, day: nat): string
    requires year < 10000 && month < 100 && day < 100
  {
    FourDigits(year) + "-" + TwoDigits(month) + "-" + TwoDigits(day)
  }


  /** The fraction of a second in microseconds, ".448666". */
  function FormatFraction(nanosecond: nat): string
    requires nanosecond < 1_000_000_000
  {
    "." + SixDigits(nanosecond / 1000)
  }

  /** The sign and the hhmm digits of an offset, "+0900". */
  function FormatZone(offset: int): string
    requires -89940 <= offset <= 89940
  {
    var a := if offset < 0 then -offset else offset;
    (if offset < 0 then "-" else "+") + TwoDigits(a / 3600) + TwoDigits(a % 3600 / 60)
  }

  /** What log show can print: microsecond precision, and an offset whose
      minutes are below 60. */
  predicate Printable(t: Timestamp) {
    ValidLogTime(t) && t.nanosecond % 1000 == 0 && -89940 <= t.zone.seconds <= 89940
  }

  /** The first column of `log show --style syslog`. */
  function FormatLogTime(t: Timestamp): (s: string)
    requires Printable(t)
    ensures |s| == 31
  {
    FormatDate(t.year, t.month, t.day)
      + (" " + FormatTimeOfDay(t.hour, t.minute, t.second) + (FormatFraction(t.nanosecond) + FormatZone(t.zone.seconds)))
  }

  lemma LemmaReadDateFormat(year: nat, month: nat, day: nat, rest: string)
    requires year < 10000 && 1 <= month <= 12 && day < 100
    ensures ReadDate(FormatDate(year, month, day) + rest) == Some(DateRead(year, month, day, rest))
  {
    var y, mm, d := FourDigits(year), TwoDigits(month), TwoDigits(day);
    var afterMonth := "-" + (d + rest);
    var afterYear := "-" + (mm + afterMonth);
    LemmaAppendAssoc(y + "-" + mm + "-", d, rest);
    LemmaAppendAssoc(y + "-" + mm, "-", d + rest);
    LemmaAppendAssoc(y + "-", mm, afterMonth);
    LemmaAppendAssoc(y, "-", mm + afterMonth);
    LemmaReadYearDigits(year, afterYear);
    LemmaExpectFront('-', TwoDigits(month) + afterMonth);
    LemmaGetNumDigits(month, afterMonth, true);
    LemmaExpectFront('-', TwoDigits(day) + rest);
    LemmaGetNumDigits(day, rest, true);
  }

  lemma LemmaReadClockFormat(hour: nat, minute: nat, second: nat, rest: string)
    requires hour < 24 && minute < 60 && second < 60
    ensures ReadClock(" " + FormatTimeOfDay(hour, minute, second) + rest) == Some(ClockRead(hour, minute, second, rest))
  {
    var hh, mm, ss := TwoDigits(hour), TwoDigits(minute), TwoDigits(second);
    var afterMinute := ":" + (ss + rest);
    var afterHour := ":" + (mm + afterMinute);
    var v := hh + afterHour;
    LemmaAppendAssoc(":", ss, rest);
    LemmaAppendAssoc(mm, ":" + ss, rest);
    LemmaAppendAssoc(":", mm + (":" + ss), rest);
    LemmaAppendAssoc(hh, ":" + (mm + (":" + ss)), rest);
    LemmaAppendAssoc(" ", FormatTimeOfDay(hour, minute, second), rest);
    LemmaSkipOneSpace(v);
    LemmaGetNumDigits(hour, afterHour, false);
    LemmaExpectFront(':', TwoDigits(minute) + afterMinute);
    LemmaGetNumDigits(minute, afterMinute, true);
    LemmaExpectFront(':', TwoDigits(second) + rest);
    LemmaGetNumDigits(second, rest, true);
  }

  /** Six digits of microseconds are scaled back to the nanoseconds they came
      from. */
  lemma LemmaNanosecondsOfMicros(nanosecond: nat)
    requires nanosecond < 1_000_000_000 && nanosecond % 1000 == 0
    ensures Nanoseconds(SixDigits(nanosecond / 1000)) == nanosecond
  {
    var micros := nanosecond / 1000;
    var digits := SixDigits(micros);
    assert Pow10(9 - |digits|) == 1000;
    assert Num(digits) * 1000 == nanosecond;
  }

  lemma LemmaReadFractionFormat(nanosecond: nat, rest: string)
    requires nanosecond < 1_000_000_000 && nanosecond % 1000 == 0
    requires rest == [] || !IsDigit(rest[0])
    ensures ReadFraction(FormatFraction(nanosecond) + rest) == FractionRead(nanosecond, rest)
  {
    var digits := SixDigits(nanosecond / 1000);
    var v := "." + digits + rest;
    LemmaDigitRun(".", digits, rest);
    assert v[1..7] == digits && v[7..] == rest;
    LemmaNanosecondsOfMicros(nanosecond);
  }

  /** An offset of whole minutes splits into hours and minutes below 60. */
  lemma LemmaHoursMinutes(a: nat)
    requires a % 60 == 0
    ensures a == a / 3600 * 3600 + a % 3600 / 60 * 60
  {
    var h := a / 3600;
    var r := a % 3600;
    assert a == h * 3600 + r;
    assert r % 60 == 0 by {
      assert a == 60 * (a / 60);
      assert r == 60 * (a / 60 - 60 * h);
    }
    assert r == r / 60 * 60;
  }

  /** The magnitude of a whole-minute offset is a whole number of minutes. */
  lemma LemmaMagnitudeMinutes(offset: int)
    requires offset % 60 == 0
    ensures (if offset < 0 then -offset else offset) % 60 == 0
  {
    var k := offset / 60;
    assert offset == 60 * k;
    assert -offset == 60 * (-k);
  }

  lemma LemmaReadZoneFormat(offset: int)
    requires offset % 60 == 0 && -89940 <= offset <= 89940
    ensures ReadZone(FormatZone(offset)) == Some(ZoneRead(offset, []))
  {
    var a := if offset < 0 then -offset else offset;
    var v := FormatZone(offset);
    assert v[1..3] == TwoDigits(a / 3600) + [] && v[3..5] == TwoDigits(a % 3600 / 60) + [] && v[5..] == [];
    LemmaGetNumDigits(a / 3600, [], true);
    LemmaGetNumDigits(a % 3600 / 60, [], true);
    LemmaMagnitudeMinutes(offset);
    LemmaHoursMinutes(a);
  }

  /** The fraction and the offset as log show prints them are read back. */
  lemma LemmaParseAfterClockOfFormat(t: Timestamp, date: DateRead, clock: ClockRead)
    requires Printable(t)
    requires date.year == t.year && date.month == t.month && date.day == t.day
    requires clock == ClockRead(t.hour, t.minute, t.second, FormatFraction(t.nanosecond) + FormatZone(t.zone.seconds))
    ensures ParseAfterClock(date, clock) == Some(t)
  {
    LemmaReadFractionFormat(t.nanosecond, FormatZone(t.zone.seconds));
    LemmaReadZoneFormat(t.zone.seconds);
  }

  /** The time of day and what follows it, as log show prints them, are read
      back. */
  lemma LemmaParseAfterDateOfFormat(t: Timestamp, date: DateRead)
    requires Printable(t)
    requires date == DateRead(t.year, t.month, t.day,
                              " " + FormatTimeOfDay(t.hour, t.minute, t.second)
                                + (FormatFraction(t.nanosecond) + FormatZone(t.zone.seconds)))
    ensures ParseAfterDate(date) == Some(t)
  {
    var fz := FormatFraction(t.nanosecond) + FormatZone(t.zone.seconds);
    LemmaReadClockFormat(t.hour, t.minute, t.second, fz);
    LemmaParseAfterClockOfFormat(t, date, ClockRead(t.hour, t.minute, t.second, fz));
  }

  /** Reading back what log show prints gives the same time. */
  lemma LemmaParseFormatLogTime(t: Timestamp)
    requires Printable(t)
    ensures ParseLogTime(FormatLogTime(t)) == Some(t)
  {
    var fz := FormatFraction(t.nanosecond) + FormatZone(t.zone.seconds);
    var clock := " " + FormatTimeOfDay(t.hour, t.minute, t.second) + fz;
    LemmaReadDateFormat(t.year, t.month, t.day, clock);
    LemmaParseAfterDateOfFormat(t, DateRead(t.year, t.month, t.day, clock));
  }

  lemma LemmaFormatDateShape(year: nat, month: nat, day: nat)
    requires year < 10000 && month < 100 && day < 100
    ensures |FormatDate(year, month, day)| == 10 && IsDateAt(FormatDate(year, month, day))
  {
    var y := FourDigits(year);
    assert IsDigit(y[0]) && IsDigit(y[1]) && IsDigit(y[2]) && IsDigit(y[3]);
    assert IsDigit(TwoDigits(month)[0]) && IsDigit(TwoDigits(month)[1]);
    assert IsDigit(TwoDigits(day)[0]) && IsDigit(TwoDigits(day)[1]);
  }

  lemma LemmaFormatTimeShape(hour: nat, minute: nat, second: nat)
    requires hour < 100 && minute < 100 && second < 100
    ensures |FormatTimeOfDay(hour, minute, second)| == 8 && IsClockAt(FormatTimeOfDay(hour, minute, second), 0)
  {
    assert IsDigit(TwoDigits(hour)[0]) && IsDigit(TwoDigits(hour)[1]);
    assert IsDigit(TwoDigits(minute)[0]) && IsDigit(TwoDigits(minute)[1]);
    assert IsDigit(TwoDigits(second)[0]) && IsDigit(TwoDigits(second)[1]);
  }

  lemma LemmaFormatFractionShape(nanosecond: nat)
    requires nanosecond < 1_000_000_000
    ensures var f := FormatFraction(nanosecond); |f| == 7 && f[0] == '.' && AllIn(f, 1, 7, Digit)
  {
    var f := FormatFraction(nanosecond);
    forall k | 1 <= k < 7 ensures In(f[k], Digit) {
      assert f[k] == SixDigits(nanosecond / 1000)[k - 1];
    }
  }

  lemma LemmaFormatZoneShape(offset: int)
    requires -89940 <= offset <= 89940
    ensures |FormatZone(offset)| == 5 && IsOffsetAt(FormatZone(offset), 0)
  {
    var a := if offset < 0 then -offset else offset;
    var hours, minutes := a / 3600, a % 3600 / 60;
    assert hours < 100 && minutes < 100;
    var hh, mm := TwoDigits(hours), TwoDigits(minutes);
    var z := FormatZone(offset);
    assert z == (if offset < 0 then "-" else "+") + hh + mm;
    assert IsDigit(hh[0]) && IsDigit(hh[1]) && IsDigit(mm[0]) && IsDigit(mm[1]);
    assert z[1] == hh[0] && z[2] == hh[1] && z[3] == mm[0] && z[4] == mm[1];
  }

  /** Pieces of the right shapes, put together, make a timestamp match. */
  lemma LemmaStampOfPieces(date: string, time: string, fraction: string, zone: string, rest: string)
    requires |date| == 10 && IsDateAt(date)
    requires |time| == 8 && IsClockAt(time, 0)
    requires |fraction| == 7 && fraction[0] == '.' && AllIn(fraction, 1, 7, Digit)
    requires |zone| == 5 && IsOffsetAt(zone, 0)
    ensures IsStampMatch(date + (" " + time + (fraction + zone)) + rest, 11, 26)
  {
    var line := date + (" " + time + (fraction + zone)) + rest;
    assert forall k :: 0 <= k < 10 ==> line[k] == date[k];
    assert line[10] == ' ' && In(line[10], Space);
    assert forall k :: 0 <= k < 8 ==> line[11 + k] == time[k];
    assert forall k :: 0 <= k < 7 ==> line[19 + k] == fraction[k];
    assert forall k :: 0 <= k < 5 ==> line[26 + k] == zone[k];
    forall k | 20 <= k < 26 ensures In(line[k], Digit) {
      assert line[k] == fraction[k - 19];
      assert In(fraction[k - 19], Digit);
    }
  }

  /** The formatted time, at the front of a line, is what the timestamp
      pattern captures. */
  lemma LemmaFormatStampMatch(t: Timestamp, rest: string)
    requires Printable(t)
    ensures IsStampMatch(FormatLogTime(t) + rest, 11, 26)
    ensures (FormatLogTime(t) + rest)[..31] == FormatLogTime(t)
  {
    var date := FormatDate(t.year, t.month, t.day);
    var time := FormatTimeOfDay(t.hour, t.minute, t.second);
    var fraction := FormatFraction(t.nanosecond);
    var zone := FormatZone(t.zone.seconds);
    LemmaFormatDateShape(t.year, t.month, t.day);
    LemmaFormatTimeShape(t.hour, t.minute, t.second);
    LemmaFormatFractionShape(t.nanosecond);
    LemmaFormatZoneShape(t.zone.seconds);
    LemmaStampOfPieces(date, time, fraction, zone, rest);
  }

  /** The text the timestamp pattern captures: the line up to the end of the
      offset, when the pattern matches. */
  function CapturedStamp(line: string): (r: Option<string>)
    ensures r.None? <==> forall c, f :: !IsStampMatch(line, c, f)
    ensures r.Some? ==> && r.value <= line && MatchStamp(line).Some?
                        && IsStampMatch(line, MatchStamp(line).value.0, |r.value| - 5)
  {
    match MatchStamp(line)
    case None =>
      forall c, f | IsStampMatch(line, c, f) ensures false { LemmaStampForced(line, c, f); }
      None
    case Some((clockStart, fracEnd)) => Some(line[..fracEnd + 5])
  }

  /** The time a line carries: the leading timestamp when the pattern finds
      one, it parses and it is not the zero instant, and `now` otherwise. */
  function LineTimestamp(line: string, now: Timestamp): (t: Timestamp)
    ensures t == now || (ValidLogTime(t) && !IsZeroInstant(t))
    ensures CapturedStamp(line).None? ==> t == now
    ensures CapturedStamp(line).Some? && ParseLogTime(CapturedStamp(line).value).None? ==> t == now
    ensures CapturedStamp(line).Some? && ParseLogTime(CapturedStamp(line).value).Some? ==>
              var p := ParseLogTime(CapturedStamp(line).value).value;
              t == if IsZeroInstant(p) then now else p
  {
    match CapturedStamp(line)
    case None => now
    case Some(stamp) =>
      match ParseLogTime(stamp)
      case None => now
      case Some(p) => if IsZeroInstant(p) then now else p
  }

  /** A line that starts with a time as log show prints it carries that time,
      unless it is the zero instant. */
  lemma LemmaLineTimestampOfFormat(t: Timestamp, rest: string, now: Timestamp)
    requires Printable(t)
    ensures LineTimestamp(FormatLogTime(t) + rest, now) == if IsZeroInstant(t) then now else t
  {
    LemmaFormatStampMatch(t, rest);
    LemmaStampForced(FormatLogTime(t) + rest, 11, 26);
    LemmaParseFormatLogTime(t);
  }

  // ---------------------------------------------------------------------
  // parseViolation
  // ---------------------------------------------------------------------

  /** The violation a log line describes, if any; `now` is the clock reading
      used when the line's own time is missing or does not parse. */
  function ParseViolation(line: string, now: Timestamp): (r: Option<Violation>)
    ensures r.None? <==> forall m :: !IsSandboxMatch(line, m)
    ensures r.Some? ==> r.value.rawLine == line && r.value.timestamp == LineTimestamp(line, now)
    ensures r.Some? ==> var path := r.value.targetPath;
                        path == [] || (!IsUnicodeSpace(path[0]) && !IsUnicodeSpace(path[|path| - 1]))
  {
    match FindSandbox(line, 0)
    case None => None
    case Some(m) => Some(ViolationOf(line, m, now))
  }

  /** The record built from the groups of a sandbox match: the process name
      and id, the operation, the path with surrounding white space trimmed,
      the deny code, and the line itself with the time it carries. */
  function ViolationOf(line: string, m: SandboxSpans, now: Timestamp): (v: Violation)
    requires IsSandboxMatch(line, m)
    ensures v.rawLine == line && v.timestamp == LineTimestamp(line, now)
    ensures v.targetPath == [] || (!IsUnicodeSpace(v.targetPath[0]) && !IsUnicodeSpace(v.targetPath[|v.targetPath| - 1]))
  {
    Violation(LineTimestamp(line, now),
              line[m.nameStart..m.nameEnd], line[m.nameEnd + 1..m.pidEnd],
              line[m.opStart..m.opEnd], TrimSpace(line[m.restStart..]),
              line[m.denyStart + 5..m.codeEnd], line)
  }

  /** For the match the regexp engine picks, the violation is the record
      ViolationOf builds from its groups. */
  lemma LemmaParseViolationFields(line: string, m: SandboxSpans, now: Timestamp)
    requires IsChosenSandbox(line, m)
    ensures ParseViolation(line, now) == Some(ViolationOf(line, m, now))
  {
    LemmaChosenIsFound(line, m);
  }

  /** The captured fields have the shapes the pattern demands: a word for the
      process name, digits for the process id and the deny code, a word with
      dashes for the operation. */
  predicate HasGroupShapes(v: Violation) {
    && v.processName != [] && AllIn(v.processName, 0, |v.processName|, Word)
    && v.processID != [] && AllIn(v.processID, 0, |v.processID|, Digit)
    && v.denyCode != [] && AllIn(v.denyCode, 0, |v.denyCode|, Digit)
    && v.operation != [] && AllIn(v.operation, 0, |v.operation|, WordOrDash)
  }

  /** Every violation parseViolation reports has fields of those shapes. */
  lemma LemmaViolationShape(line: string, now: Timestamp)
    ensures ParseViolation(line, now).Some? ==> HasGroupShapes(ParseViolation(line, now).value)
  {
    match FindSandbox(line, 0)
    case None =>
    case Some(m) =>
      LemmaGroupShapes(line, m, now);
  }

  /** The groups of any sandbox match have those shapes. */
  lemma LemmaGroupShapes(line: string, m: SandboxSpans, now: Timestamp)
    requires IsSandboxMatch(line, m)
    ensures HasGroupShapes(ViolationOf(line, m, now))
  {
    LemmaAllInSlice(line, m.nameStart, m.nameEnd, Word);
    LemmaAllInSlice(line, m.nameEnd + 1, m.pidEnd, Digit);
    LemmaAllInSlice(line, m.denyStart + 5, m.codeEnd, Digit);
    LemmaAllInSlice(line, m.opStart, m.opEnd, WordOrDash);
  }

  // ---------------------------------------------------------------------
  // parseLogOutput
  // ---------------------------------------------------------------------

  /** The pre-filter: the line contains "Sandbox:". */
  function MentionsSandbox(line: string): (b: bool)
    ensures b <==> exists i :: Occurs(line, i, SandboxTag)
  {
    Contains(line, SandboxTag)
  }

  /** Every line parseViolation accepts passes the pre-filter. */
  lemma LemmaFilterKeepsEveryViolation(line: string, now: Timestamp)
    ensures ParseViolation(line, now).Some? ==> MentionsSandbox(line)
  {
    if ParseViolation(line, now).Some? {
      assert Occurs(line, FindSandbox(line, 0).value.start, SandboxTag);
    }
  }

  /** parseViolation with the fallback clock reading fixed. */
  function LogParser(now: Timestamp): (parse: string -> Option<Violation>)
    ensures forall line :: parse(line) == ParseViolation(line, now)
  {
    line => ParseViolation(line, now)
  }

  /** The pre-filter only saves work: it never drops a violation. */
  lemma LemmaPreFilterIsTransparent(lines: seq<string>, now: Timestamp)
    ensures LogLines.ParseLines(lines, MentionsSandbox, LogParser(now))
              == LogLines.ParseLines(lines, LogLines.AnyLine, LogParser(now))
  {
    forall i | 0 <= i < |lines| && LogParser(now)(lines[i]).Some?
      ensures MentionsSandbox(lines[i])
    {
      LemmaFilterKeepsEveryViolation(lines[i], now);
    }
    LogLines.LemmaTransparentFilter(lines, MentionsSandbox, LogParser(now));
  }

  /** parseLogOutput: the violations of the lines the scanner delivers, and a
      scanning error naming the log when it gave up on an over-long line. */
  function ParseLogOutput(output: string, now: Timestamp): (r: Collected)
    ensures r.err.Some? <==> HasOverlongLine(output)
    ensures r.err.Some? ==> r.err.value == ScanFailed("log")
    ensures r.err.None? ==> r.violations == LogLines.ParseLines(Lines(output), MentionsSandbox, LogParser(now))
    ensures r.err.Some? ==> exists k :: && FirstOverlong(output, k)
                                        && r.violations == LogLines.ParseLines(Lines(output)[..k], MentionsSandbox, LogParser(now))
    ensures output == [] ==> r == Collected([], None)
  {
    LogLines.ParseOutput(output, "log", MentionsSandbox, LogParser(now))
  }

  /** Every violation reported from the log is one of its lines, a line that
      contains "Sandbox:". */
  lemma LemmaLogViolationsAreLines(output: string, now: Timestamp)
    ensures forall v :: v in ParseLogOutput(output, now).violations ==>
              v.rawLine in Lines(output) && MentionsSandbox(v.rawLine)
  {
    LogLines.LemmaViolationsFromLines(output, "log", MentionsSandbox, LogParser(now));
  }

  // ---------------------------------------------------------------------
  // CollectViolations
  // ---------------------------------------------------------------------

  /** CollectViolations, given what running `log show` gave back. */
  function CollectViolations(logShow: CommandOutcome, now: Timestamp): (r: Collected)
    ensures logShow.Failed? ==> r == Collected([], Some(ExecFailed("log show", logShow.cause)))
    ensures logShow.Ran? ==> r == ParseLogOutput(logShow.stdout, now)
    ensures logShow.Ran? ==> r.err.None? || r.err == Some(ScanFailed("log"))
    ensures logShow.Ran? ==> forall v :: v in r.violations ==> v.rawLine in Lines(logShow.stdout)
  {
    match logShow
    case Failed(cause) => Collected([], Some(ExecFailed("log show", cause)))
    case Ran(output) => ParseLogOutput(output, now)
  }

  /** When `log show` runs and no line is too long, the collection is every
      line's parse, in line order, exactly as if no pre-filter were applied;
      when a line is too long, it is the log scanning error. */
  lemma LemmaCollectEveryLine(output: string, now: Timestamp)
    ensures !HasOverlongLine(output) ==>
              CollectViolations(Ran(output), now)
                == Collected(LogLines.ParseLines(Lines(output), LogLines.AnyLine, LogParser(now)), None)
    ensures HasOverlongLine(output) ==> CollectViolations(Ran(output), now).err == Some(ScanFailed("log"))
  {
    LemmaPreFilterIsTransparent(Lines(output), now);
  }
}
