/**
  The Linux collector (pkg/collector/collector_linux.go): journal lines of the
  shape `Nov 03 16:25:43 host bwrap[12345]: message` are kept when they
  concern bubblewrap, and a denial keyword in the message supplies the
  operation and the path. Output comes from journalctl, or from dmesg when
  journalctl fails.

  The two patterns of the source are stated as predicates over the positions
  where their groups begin and end (IsHeaderMatch, IsDenialMatch); the
  matchers compute the match Go's leftmost-first regexp engine picks, and
  the lemmas show that they find one exactly when one exists.
 */
module LinuxCollector {
  import opened Wrappers
  import opened Chars
  import opened Violations
  import opened LineScanner
  import opened GoTime
  import LogLines

  // ---------------------------------------------------------------------
  // The journal header `^(\w+\s+\d+\s+\d{2}:\d{2}:\d{2})\s+\S+\s+(\w+)\[(\d+)\]:\s+(.+)$`
  // ---------------------------------------------------------------------

  /** Where the pieces of a header match begin and end. The timestamp group
      is line[..clockStart + 8], the process name line[nameStart..nameEnd],
      the process id line[nameEnd + 1..pidEnd] and the message
      line[msgStart..]. */
  datatype HeaderSpans = HeaderSpans(
    monthEnd: nat, dayStart: nat, dayEnd: nat, clockStart: nat,
    hostStart: nat, hostEnd: nat, nameStart: nat, nameEnd: nat,
    pidEnd: nat, msgStart: nat)

  /** `^\w+\s+\d+\s+\d{2}:\d{2}:\d{2}`: month word, day digits, clock. */
  predicate IsStampPart(line: string, monthEnd: int, dayStart: int, dayEnd: int, clockStart: int) {
    && 0 < monthEnd && AllIn(line, 0, monthEnd, Word)
    && monthEnd < dayStart && AllIn(line, monthEnd, dayStart, Space)
    && dayStart < dayEnd && AllIn(line, dayStart, dayEnd, Digit)
    && dayEnd < clockStart && AllIn(line, dayEnd, clockStart, Space)
    && IsClockAt(line, clockStart)
  }

  /** `\s+\S+\s+(\w+)\[` from `from` on: host name, then process name. */
  predicate IsSourcePart(line: string, from: int, hostStart: int, hostEnd: int, nameStart: int, nameEnd: int) {
    && from < hostStart && AllIn(line, from, hostStart, Space)
    && hostStart < hostEnd && AllIn(line, hostStart, hostEnd, NonSpace)
    && hostEnd < nameStart && AllIn(line, hostEnd, nameStart, Space)
    && nameStart < nameEnd && AllIn(line, nameStart, nameEnd, Word)
    && nameEnd < |line| && line[nameEnd] == '['
  }

  /** `(\d+)\]:` after the `[` at nameEnd. */
  predicate IsPidPart(line: string, nameEnd: int, pidEnd: int) {
    && 0 <= nameEnd && nameEnd + 1 < pidEnd && AllIn(line, nameEnd + 1, pidEnd, Digit)
    && pidEnd + 1 < |line| && line[pidEnd] == ']' && line[pidEnd + 1] == ':'
  }

  /** The journal pattern matches the whole line with these group bounds. */
  predicate IsHeaderMatch(line: string, h: HeaderSpans) {
    && IsStampPart(line, h.monthEnd, h.dayStart, h.dayEnd, h.clockStart)
    && IsSourcePart(line, h.clockStart + 8, h.hostStart, h.hostEnd, h.nameStart, h.nameEnd)
    && IsPidPart(line, h.nameEnd, h.pidEnd)
    && IsSpacesThenRest(line, h.pidEnd + 2, h.msgStart)
  }

  /** The match the regexp engine reports: every piece before the message is
      forced, and greedy `\s+` leaves the message as short as it can be. */
  ghost predicate IsChosenHeader(line: string, h: HeaderSpans) {
    IsHeaderMatch(line, h) && forall h' :: IsHeaderMatch(line, h') ==> h'.msgStart <= h.msgStart
  }

  /** Where the pieces of the timestamp end: the first four fields of HeaderSpans. */
  datatype StampSpans = StampSpans(monthEnd: nat, dayStart: nat, dayEnd: nat, clockStart: nat)

  /** Where the host and process names begin and end: the next four fields of HeaderSpans. */
  datatype SourceSpans = SourceSpans(hostStart: nat, hostEnd: nat, nameStart: nat, nameEnd: nat)

  function MatchStampPart(line: string): (r: Option<StampSpans>)
    ensures r.Some? ==> IsStampPart(line, r.value.monthEnd, r.value.dayStart, r.value.dayEnd, r.value.clockStart)
  {
    var monthEnd := Span(line, 0, Word);
    var dayStart := Span(line, monthEnd, Space);
    var dayEnd := Span(line, dayStart, Digit);
    var clockStart := Span(line, dayEnd, Space);
    LemmaSpan(line, 0, Word);
    LemmaSpan(line, monthEnd, Space);
    LemmaSpan(line, dayStart, Digit);
    LemmaSpan(line, dayEnd, Space);
    if 0 < monthEnd < dayStart < dayEnd < clockStart && IsClockAt(line, clockStart)
    then Some(StampSpans(monthEnd, dayStart, dayEnd, clockStart))
    else None
  }

  function MatchSourcePart(line: string, from: nat): (r: Option<SourceSpans>)
    ensures r.Some? ==> IsSourcePart(line, from, r.value.hostStart, r.value.hostEnd, r.value.nameStart, r.value.nameEnd)
  {
    if |line| < from then None
    else
      var hostStart := Span(line, from, Space);
      var hostEnd := Span(line, hostStart, NonSpace);
      var nameStart := Span(line, hostEnd, Space);
      var nameEnd := Span(line, nameStart, Word);
      LemmaSpan(line, from, Space);
      LemmaSpan(line, hostStart, NonSpace);
      LemmaSpan(line, hostEnd, Space);
      LemmaSpan(line, nameStart, Word);
      if from < hostStart < hostEnd < nameStart < nameEnd < |line| && line[nameEnd] == '['
      then Some(SourceSpans(hostStart, hostEnd, nameStart, nameEnd))
      else None
  }

  function MatchPidPart(line: string, nameEnd: nat): (r: Option<nat>)
    ensures r.Some? ==> IsPidPart(line, nameEnd, r.value)
  {
    if |line| <= nameEnd + 1 then None
    else
      var pidEnd := Span(line, nameEnd + 1, Digit);
      LemmaSpan(line, nameEnd + 1, Digit);
      if nameEnd + 1 < pidEnd && pidEnd + 1 < |line| && line[pidEnd] == ']' && line[pidEnd + 1] == ':'
      then Some(pidEnd)
      else None
  }

  function MatchHeader(line: string): (r: Option<HeaderSpans>)
    ensures r.Some? ==> IsHeaderMatch(line, r.value)
  {
    match MatchStampPart(line)
    case None => None
    case Some(stamp) => MatchAfterStamp(line, stamp)
  }

  /** The rest of the header once the timestamp is matched. */
  function MatchAfterStamp(line: string, stamp: StampSpans): (r: Option<HeaderSpans>)
    ensures r.Some? ==> (&& StampSpans(r.value.monthEnd, r.value.dayStart, r.value.dayEnd, r.value.clockStart) == stamp
                         && IsSourcePart(line, stamp.clockStart + 8, r.value.hostStart, r.value.hostEnd, r.value.nameStart, r.value.nameEnd)
                         && IsPidPart(line, r.value.nameEnd, r.value.pidEnd)
                         && IsSpacesThenRest(line, r.value.pidEnd + 2, r.value.msgStart))
  {
    match MatchSourcePart(line, stamp.clockStart + 8)
    case None => None
    case Some(source) => MatchAfterSource(line, stamp, source)
  }

  /** The process id and the message once the process name is matched. */
  function MatchAfterSource(line: string, stamp: StampSpans, source: SourceSpans): (r: Option<HeaderSpans>)
    ensures r.Some? ==> (&& StampSpans(r.value.monthEnd, r.value.dayStart, r.value.dayEnd, r.value.clockStart) == stamp
                         && SourceSpans(r.value.hostStart, r.value.hostEnd, r.value.nameStart, r.value.nameEnd) == source
                         && IsPidPart(line, source.nameEnd, r.value.pidEnd)
                         && IsSpacesThenRest(line, r.value.pidEnd + 2, r.value.msgStart))
  {
    match MatchPidPart(line, source.nameEnd)
    case None => None
    case Some(pidEnd) =>
      match SpacesThenRest(line, pidEnd + 2)
      case None => None
      case Some(msgStart) =>
        Some(HeaderSpans(stamp.monthEnd, stamp.dayStart, stamp.dayEnd, stamp.clockStart, source.hostStart, source.hostEnd, source.nameStart, source.nameEnd, pidEnd, msgStart))
  }

  lemma LemmaStampPartForced(line: string, monthEnd: nat, dayStart: nat, dayEnd: nat, clockStart: nat)
    requires IsStampPart(line, monthEnd, dayStart, dayEnd, clockStart)
    ensures MatchStampPart(line) == Some(StampSpans(monthEnd, dayStart, dayEnd, clockStart))
  {
    assert In(line[monthEnd], Space) && In(line[dayStart], Digit) && In(line[dayEnd], Space);
    LemmaSpanStops(line, 0, monthEnd, Word);
    LemmaSpanStops(line, monthEnd, dayStart, Space);
    LemmaSpanStops(line, dayStart, dayEnd, Digit);
    LemmaSpanStops(line, dayEnd, clockStart, Space);
  }

  lemma LemmaSourcePartForced(line: string, h: HeaderSpans)
    requires IsHeaderMatch(line, h)
    ensures MatchSourcePart(line, h.clockStart + 8) == Some(SourceSpans(h.hostStart, h.hostEnd, h.nameStart, h.nameEnd))
  {
    var from := h.clockStart + 8;
    assert In(line[h.hostStart], NonSpace) && In(line[h.hostEnd], Space) && In(line[h.nameStart], Word);
    LemmaSpanStops(line, from, h.hostStart, Space);
    LemmaSpanStops(line, h.hostStart, h.hostEnd, NonSpace);
    LemmaSpanStops(line, h.hostEnd, h.nameStart, Space);
    LemmaSpanStops(line, h.nameStart, h.nameEnd, Word);
  }

  lemma LemmaPidPartForced(line: string, nameEnd: nat, pidEnd: nat)
    requires IsPidPart(line, nameEnd, pidEnd)
    ensures MatchPidPart(line, nameEnd) == Some(pidEnd)
  {
    LemmaSpanStops(line, nameEnd + 1, pidEnd, Digit);
  }

  /** Any header match agrees with the computed one on every piece but the
      message start, which the computed one puts as late as possible; so the
      computed match exists whenever any does, and it is the chosen one. */
  lemma LemmaHeaderMatchForced(line: string, h: HeaderSpans)
    requires IsHeaderMatch(line, h)
    ensures MatchHeader(line).Some?
    ensures MatchHeader(line).value == h.(msgStart := MatchHeader(line).value.msgStart)
    ensures h.msgStart <= MatchHeader(line).value.msgStart
  {
    LemmaStampPartForced(line, h.monthEnd, h.dayStart, h.dayEnd, h.clockStart);
    LemmaSourcePartForced(line, h);
    LemmaPidPartForced(line, h.nameEnd, h.pidEnd);
    LemmaHeaderOfForcedParts(line, h);
  }

  /** The last step of LemmaHeaderMatchForced, once the stages are known to
      find the pieces of h. */
  lemma LemmaHeaderOfForcedParts(line: string, h: HeaderSpans)
    requires MatchStampPart(line) == Some(StampSpans(h.monthEnd, h.dayStart, h.dayEnd, h.clockStart))
    requires MatchSourcePart(line, h.clockStart + 8) == Some(SourceSpans(h.hostStart, h.hostEnd, h.nameStart, h.nameEnd))
    requires MatchPidPart(line, h.nameEnd) == Some(h.pidEnd)
    requires IsSpacesThenRest(line, h.pidEnd + 2, h.msgStart)
    ensures MatchHeader(line).Some?
    ensures MatchHeader(line).value == h.(msgStart := MatchHeader(line).value.msgStart)
    ensures h.msgStart <= MatchHeader(line).value.msgStart
  {
    var stamp := StampSpans(h.monthEnd, h.dayStart, h.dayEnd, h.clockStart);
    var source := SourceSpans(h.hostStart, h.hostEnd, h.nameStart, h.nameEnd);
    LemmaSpacesThenRestFound(line, h.pidEnd + 2, h.msgStart);
    var msgStart := SpacesThenRest(line, h.pidEnd + 2).value;
    LemmaMatchHeaderOfParts(line, stamp, source, h.pidEnd, msgStart);
    assert HeaderSpans(stamp.monthEnd, stamp.dayStart, stamp.dayEnd, stamp.clockStart, source.hostStart, source.hostEnd, source.nameStart, source.nameEnd, h.pidEnd, msgStart)
        == h.(msgStart := msgStart);
  }

  /** The matcher assembles the pieces its stages find. */
  lemma LemmaMatchHeaderOfParts(line: string, stamp: StampSpans, source: SourceSpans, pidEnd: nat, msgStart: nat)
    requires MatchStampPart(line) == Some(stamp)
    requires MatchSourcePart(line, stamp.clockStart + 8) == Some(source)
    requires MatchPidPart(line, source.nameEnd) == Some(pidEnd)
    requires SpacesThenRest(line, pidEnd + 2) == Some(msgStart)
    ensures MatchHeader(line) == Some(HeaderSpans(stamp.monthEnd, stamp.dayStart, stamp.dayEnd, stamp.clockStart, source.hostStart, source.hostEnd, source.nameStart, source.nameEnd, pidEnd, msgStart))
  {
    var h := HeaderSpans(stamp.monthEnd, stamp.dayStart, stamp.dayEnd, stamp.clockStart, source.hostStart, source.hostEnd, source.nameStart, source.nameEnd, pidEnd, msgStart);
    assert MatchAfterSource(line, stamp, source) == Some(h);
    assert MatchAfterStamp(line, stamp) == Some(h);
  }

  /** MatchHeader finds the chosen match, and nothing when none exists. */
  lemma LemmaMatchHeaderChosen(line: string)
    ensures MatchHeader(line).Some? ==> IsChosenHeader(line, MatchHeader(line).value)
    ensures MatchHeader(line).None? ==> forall h :: !IsHeaderMatch(line, h)
    ensures forall h :: IsChosenHeader(line, h) ==> MatchHeader(line) == Some(h)
  {
    forall h | IsHeaderMatch(line, h)
      ensures MatchHeader(line).Some? && h.msgStart <= MatchHeader(line).value.msgStart
    {
      LemmaHeaderMatchForced(line, h);
    }
    forall h | IsChosenHeader(line, h) ensures MatchHeader(line) == Some(h) {
      LemmaChosenHeaderFound(line, h);
    }
  }

  /** The chosen match is the one MatchHeader computes. */
  lemma LemmaChosenHeaderFound(line: string, h: HeaderSpans)
    requires IsChosenHeader(line, h)
    ensures MatchHeader(line) == Some(h)
  {
    LemmaHeaderMatchForced(line, h);
    var found := MatchHeader(line).value;
    assert IsHeaderMatch(line, found);
    assert found.msgStart <= h.msgStart;
  }

  // ---------------------------------------------------------------------
  // The denial pattern `(?i)(permission denied|eperm|access denied|denied).*?([/\w\-\.]+)`
  // ---------------------------------------------------------------------

  /** The alternatives of the first group, in the order they are tried. */
  const DenialKeywords: seq<string> := ["permission denied", "eperm", "access denied", "denied"]

  /** Where a denial match's keyword (alternative `alt`) and path begin and end. */
  datatype DenialSpans = DenialSpans(keyStart: nat, alt: nat, pathStart: nat, pathEnd: nat)

  function KeyEnd(d: DenialSpans): nat
    requires d.alt < |DenialKeywords|
  {
    d.keyStart + |DenialKeywords[d.alt]|
  }

  /** The denial pattern matches msg with these group bounds. */
  predicate IsDenialMatch(msg: string, d: DenialSpans) {
    && d.alt < |DenialKeywords|
    && FoldOccurs(msg, d.keyStart, DenialKeywords[d.alt])
    && AllIn(msg, KeyEnd(d), d.pathStart, Dot)
    && d.pathStart < d.pathEnd && AllIn(msg, d.pathStart, d.pathEnd, PathChar)
  }

  /** The leftmost-first preference between two matches: earlier start, then
      earlier alternative, then shorter lazy `.*?`, then longer greedy path. */
  predicate DenialPrecedes(a: DenialSpans, b: DenialSpans) {
    || a.keyStart < b.keyStart
    || (a.keyStart == b.keyStart && a.alt < b.alt)
    || (a.keyStart == b.keyStart && a.alt == b.alt && a.pathStart < b.pathStart)
    || (a.keyStart == b.keyStart && a.alt == b.alt && a.pathStart == b.pathStart && a.pathEnd > b.pathEnd)
  }

  /** The match the regexp engine reports: it precedes every other match. */
  ghost predicate IsFirstDenial(msg: string, d: DenialSpans) {
    IsDenialMatch(msg, d) && forall m :: IsDenialMatch(msg, m) ==> m == d || DenialPrecedes(d, m)
  }

  /** Lazy `.*?` followed by a path character: the first path character at or
      after j that no newline comes before. */
  function FirstPathChar(msg: string, j: nat): (r: Option<nat>)
    requires j <= |msg|
    ensures r.Some? ==> j <= r.value < |msg| && In(msg[r.value], PathChar) && AllIn(msg, j, r.value, Dot)
    ensures r.Some? ==> forall q :: j <= q < r.value ==> !In(msg[q], PathChar)
    ensures r.None? ==> forall p :: j <= p < |msg| && In(msg[p], PathChar) ==> !AllIn(msg, j, p, Dot)
    decreases |msg| - j
  {
    if j == |msg| then None
    else if In(msg[j], PathChar) then Some(j)
    else if msg[j] == '\n' then
      assert !In(msg[j], Dot);
      None
    else FirstPathChar(msg, j + 1)
  }

  /** The first match starting at i that uses alternative `alt` or a later one. */
  function DenialAt(msg: string, i: nat, alt: nat): (r: Option<DenialSpans>)
    requires alt <= |DenialKeywords|
    ensures r.Some? ==> IsDenialMatch(msg, r.value) && r.value.keyStart == i && alt <= r.value.alt
    ensures r.Some? ==> forall m :: IsDenialMatch(msg, m) && m.keyStart == i && alt <= m.alt ==>
                                    m == r.value || DenialPrecedes(r.value, m)
    ensures r.None? ==> forall m :: IsDenialMatch(msg, m) && m.keyStart == i ==> m.alt < alt
    decreases |DenialKeywords| - alt
  {
    if alt == |DenialKeywords| then None
    else
      match KeywordMatchAt(msg, i, alt)
      case Some(d) => Some(d)
      case None => DenialAt(msg, i, alt + 1)
  }

  /** The first match starting at i that uses exactly alternative `alt`. */
  function KeywordMatchAt(msg: string, i: nat, alt: nat): (r: Option<DenialSpans>)
    requires alt < |DenialKeywords|
    ensures r.Some? ==> IsDenialMatch(msg, r.value) && r.value.keyStart == i && r.value.alt == alt
    ensures r.Some? ==> forall m :: IsDenialMatch(msg, m) && m.keyStart == i && m.alt == alt ==>
                                    m == r.value || DenialPrecedes(r.value, m)
    ensures r.None? ==> forall m :: IsDenialMatch(msg, m) && m.keyStart == i ==> m.alt != alt
  {
    if !FoldHasAt(msg, i, DenialKeywords[alt]) then None
    else
      match FirstPathChar(msg, i + |DenialKeywords[alt]|)
      case None => None
      case Some(p) =>
        LemmaPathIsFirst(msg, i, alt, p);
        LemmaSpan(msg, p, PathChar);
        Some(DenialSpans(i, alt, p, Span(msg, p, PathChar)))
  }

  /** Among the matches of one keyword at one place, the lazy `.*?` makes the
      path start at the first path character, and the greedy path then runs
      as far as it can. */
  lemma LemmaPathIsFirst(msg: string, i: nat, alt: nat, p: nat)
    requires alt < |DenialKeywords| && i + |DenialKeywords[alt]| <= |msg|
    requires FirstPathChar(msg, i + |DenialKeywords[alt]|) == Some(p)
    ensures forall m :: IsDenialMatch(msg, m) && m.keyStart == i && m.alt == alt ==>
                          p <= m.pathStart && (m.pathStart == p ==> m.pathEnd <= Span(msg, p, PathChar))
  {
    LemmaSpan(msg, p, PathChar);
    forall m | IsDenialMatch(msg, m) && m.keyStart == i && m.alt == alt
      ensures p <= m.pathStart && (m.pathStart == p ==> m.pathEnd <= Span(msg, p, PathChar))
    {
      assert In(msg[m.pathStart], PathChar);
    }
  }

  /** The leftmost-first match among those starting at i or later. */
  function FindDenial(msg: string, i: nat): (r: Option<DenialSpans>)
    requires i <= |msg|
    ensures r.Some? ==> IsDenialMatch(msg, r.value) && i <= r.value.keyStart
    ensures r.Some? ==> forall m :: IsDenialMatch(msg, m) && i <= m.keyStart ==>
                                    m == r.value || DenialPrecedes(r.value, m)
    ensures r.None? ==> forall m :: IsDenialMatch(msg, m) ==> m.keyStart < i
    decreases |msg| - i
  {
    match DenialAt(msg, i, 0)
    case Some(d) => Some(d)
    case None => if i == |msg| then None else FindDenial(msg, i + 1)
  }

  /** The operation and the path the denial pattern supplies: the keyword as
      written in msg and the path token after it, or "unknown" and "" when the
      pattern matches nowhere in msg. */
  function Denial(msg: string): (r: (string, string))
    ensures r.1 == "" ==> r.0 == "unknown"
    ensures AllIn(r.1, 0, |r.1|, PathChar)
  {
    match FindDenial(msg, 0)
    case None => ("unknown", "")
    case Some(d) =>
      var path := msg[d.pathStart..d.pathEnd];
      LemmaAllInSlice(msg, d.pathStart, d.pathEnd, PathChar);
      (msg[d.keyStart..KeyEnd(d)], path)
  }

  /** Denial reports the match the regexp engine picks: nothing exactly when
      there is no match, and otherwise the groups of the leftmost-first one. */
  lemma LemmaDenialIsFirstMatch(msg: string)
    ensures Denial(msg).1 == "" <==> forall d :: !IsDenialMatch(msg, d)
    ensures forall d :: IsFirstDenial(msg, d) ==>
              Denial(msg) == (msg[d.keyStart..KeyEnd(d)], msg[d.pathStart..d.pathEnd])
  {
    match FindDenial(msg, 0)
    case None =>
    case Some(d) =>
      assert IsFirstDenial(msg, d);
      forall d' | IsFirstDenial(msg, d') ensures d' == d {
        assert d' == d || DenialPrecedes(d', d);
        assert d == d' || DenialPrecedes(d, d');
      }
  }

  /** A reported operation is one of the four keywords up to letter case. */
  lemma LemmaDenialOperationIsKeyword(msg: string)
    ensures var (operation, path) := Denial(msg);
            path != "" ==> exists alt :: 0 <= alt < |DenialKeywords| && |operation| == |DenialKeywords[alt]|
                                         && FoldOccurs(operation, 0, DenialKeywords[alt])
  {
    match FindDenial(msg, 0)
    case None =>
    case Some(d) =>
      var operation := msg[d.keyStart..KeyEnd(d)];
      assert FoldOccurs(operation, 0, DenialKeywords[d.alt]) by {
        forall k | 0 <= k < |DenialKeywords[d.alt]|
          ensures FoldsTo(operation[k], DenialKeywords[d.alt][k])
        {
          assert operation[k] == msg[d.keyStart + k];
        }
      }
  }

  // ---------------------------------------------------------------------
  // The timestamp: time.Parse("Jan 02 15:04:05", …), then time.Date in the
  // year the caller supplies
  // ---------------------------------------------------------------------

  /** The fields the layout "Jan 02 15:04:05" reads. */
  datatype Clock = Clock(month: nat, day: nat, hour: nat, minute: nat, second: nat)

  /** What time.Parse accepts: with no year in the layout the day is checked
      against the month in year 0, a leap year, so 29 February passes. */
  predicate ValidClock(c: Clock) {
    && 1 <= c.month <= 12 && 1 <= c.day <= DaysIn(c.month, 0)
    && c.hour < 24 && c.minute < 60 && c.second < 60
  }

  /** A fraction after the seconds that the layout does not mention: time.Parse
      reads `.` or `,` followed by digits as fractional seconds. */
  function SkipFraction(v: string): (r: string)
    ensures |r| <= |v|
    ensures (|v| < 2 || (v[0] != '.' && v[0] != ',') || !IsDigit(v[1])) ==> r == v
  {
    if |v| >= 2 && (v[0] == '.' || v[0] == ',') && IsDigit(v[1]) then v[Span(v, 1, Digit)..] else v
  }

  /** The fields the layout reads after the month. */
  datatype DayAndTime = DayAndTime(day: nat, hour: nat, minute: nat, second: nat)

  /** The layout after the month, " 02 15:04:05": runs of spaces, a two-digit
      day, runs of spaces, then the time of day. */
  function ReadDayAndTime(v: string): Option<DayAndTime> {
    var afterMonth :- SkipSpaces(v);
    var day :- GetNum(afterMonth, true);
    var afterDay :- SkipSpaces(day.rest);
    ReadTimeOfDay(day.value, afterDay)
  }

  /** "15:04:05": a one- or two-digit hour, two-digit minute and second, and
      nothing left over but a fraction of a second. */
  function ReadTimeOfDay(day: nat, v: string): Option<DayAndTime> {
    var hour :- GetNum(v, false);
    var afterHour :- Expect(hour.rest, ':');
    var minute :- GetNum(afterHour, true);
    var afterMinute :- Expect(minute.rest, ':');
    var second :- GetNum(afterMinute, true);
    if SkipFraction(second.rest) == [] then Some(DayAndTime(day, hour.value, minute.value, second.value)) else None
  }

  /** time.Parse with layout "Jan 02 15:04:05": the month abbreviation in any
      letter case, then the fields, each in its range. */
  function ParseJournalClock(stamp: string): (r: Option<Clock>)
    ensures r.Some? ==> ValidClock(r.value)
    ensures r.Some? ==> |stamp| >= 3 && EqualFoldAscii(stamp[..3], ShortMonthNames[r.value.month - 1])
  {
    var month :- LookupMonth(stamp);
    var fields :- ReadDayAndTime(month.rest);
    var clock := Clock(month.value, fields.day, fields.hour, fields.minute, fields.second);
    if ValidClock(clock) then Some(clock) else None
  }


  /** A clock as journalctl's short output format prints it, "Jan 02 15:04:05". */
  function FormatClock(c: Clock): string
    requires ValidClock(c)
  {
    ShortMonthNames[c.month - 1] + (" " + (TwoDigits(c.day) + (" " + FormatTimeOfDay(c.hour, c.minute, c.second))))
  }

  /** No two month abbreviations are equal up to letter case. */
  lemma LemmaMonthNamesFoldDistinct(i: nat, j: nat)
    requires i < 12 && j < 12 && i != j
    ensures !EqualFoldAscii(ShortMonthNames[i], ShortMonthNames[j])
  {
    var a := ShortMonthNames[i];
    var b := ShortMonthNames[j];
    assert !(LowerChar(a[0]) == LowerChar(b[0]) && LowerChar(a[1]) == LowerChar(b[1]) && LowerChar(a[2]) == LowerChar(b[2]));
  }

  lemma {:induction false} LemmaLookupMonthFirst(v: string, i: nat, m: nat)
    requires i <= m < 12 && |v| >= 3
    requires EqualFoldAscii(v[..3], ShortMonthNames[m])
    requires forall k :: i <= k < m ==> !EqualFoldAscii(v[..3], ShortMonthNames[k])
    ensures LookupMonthFrom(v, i) == Some(Scanned(m + 1, v[3..]))
    decreases m - i
  {
    if i < m {
      assert !EqualFoldAscii(v[..3], ShortMonthNames[i]);
      LemmaLookupMonthFirst(v, i + 1, m);
    }
  }

  lemma LemmaLookupMonthName(m: nat, rest: string)
    requires 1 <= m <= 12
    ensures LookupMonth(ShortMonthNames[m - 1] + rest) == Some(Scanned(m, rest))
  {
    var v := ShortMonthNames[m - 1] + rest;
    assert v[..3] == ShortMonthNames[m - 1];
    assert v[3..] == rest;
    LemmaNoEarlierMonth(m - 1);
    LemmaLookupMonthFirst(v, 0, m - 1);
  }

  /** No month name before the m-th matches it, ignoring case. */
  lemma LemmaNoEarlierMonth(m: nat)
    requires m < 12
    ensures EqualFoldAscii(ShortMonthNames[m], ShortMonthNames[m])
    ensures forall i :: 0 <= i < m ==> !EqualFoldAscii(ShortMonthNames[m], ShortMonthNames[i])
  {
    forall i | 0 <= i < m ensures !EqualFoldAscii(ShortMonthNames[m], ShortMonthNames[i]) {
      LemmaMonthNamesFoldDistinct(m, i);
    }
  }

  lemma LemmaReadTimeOfDayFormat(day: nat, hour: nat, minute: nat, second: nat)
    requires hour < 24 && minute < 60 && second < 60
    ensures ReadTimeOfDay(day, FormatTimeOfDay(hour, minute, second)) == Some(DayAndTime(day, hour, minute, second))
  {
    var ss := TwoDigits(second);
    var afterHour := ":" + (TwoDigits(minute) + (":" + ss));
    LemmaGetNumDigits(hour, afterHour, false);
    LemmaExpectFront(':', TwoDigits(minute) + (":" + ss));
    LemmaGetNumDigits(minute, ":" + ss, true);
    LemmaExpectFront(':', ss);
    assert ss + [] == ss;
    LemmaGetNumDigits(second, [], true);
  }

  lemma LemmaReadDayAndTimeFormat(day: nat, hour: nat, minute: nat, second: nat)
    requires day < 100 && hour < 24 && minute < 60 && second < 60
    ensures ReadDayAndTime(" " + (TwoDigits(day) + (" " + FormatTimeOfDay(hour, minute, second))))
              == Some(DayAndTime(day, hour, minute, second))
  {
    var time := FormatTimeOfDay(hour, minute, second);
    assert IsDigit(TwoDigits(day)[0]) && IsDigit(time[0]);
    LemmaSkipOneSpace(TwoDigits(day) + (" " + time));
    LemmaGetNumDigits(day, " " + time, true);
    LemmaSkipOneSpace(time);
    LemmaReadTimeOfDayFormat(day, hour, minute, second);
  }

  /** Reading back what journalctl prints gives the same clock. */
  lemma LemmaParseFormatClock(c: Clock)
    requires ValidClock(c)
    ensures ParseJournalClock(FormatClock(c)) == Some(c)
  {
    LemmaLookupMonthName(c.month, " " + (TwoDigits(c.day) + (" " + FormatTimeOfDay(c.hour, c.minute, c.second))));
    LemmaReadDayAndTimeFormat(c.day, c.hour, c.minute, c.second);
  }

  /** time.Date(year, month, day, hour, minute, second, 0, time.Local) for a
      parsed clock: the reading lands in `year`, and a 29 February the year
      does not have rolls over to 1 March. */
  function InYear(year: int, c: Clock): (t: Timestamp)
    requires ValidClock(c)
    ensures t.year == year && t.zone == Local
    ensures t.hour == c.hour && t.minute == c.minute && t.second == c.second && t.nanosecond == 0
    ensures 1 <= t.month <= 12 && 1 <= t.day <= DaysIn(t.month, year)
    ensures DaysBeforeMonth(t.month, year) + t.day == DaysBeforeMonth(c.month, year) + c.day
    ensures c.day <= DaysIn(c.month, year) ==> t.month == c.month && t.day == c.day
  {
    if c.month == 2 && c.day == 29 && !IsLeapYear(year) then
      Timestamp(year, 3, 1, c.hour, c.minute, c.second, 0, Local)
    else
      Timestamp(year, c.month, c.day, c.hour, c.minute, c.second, 0, Local)
  }

  /** The timestamp parseViolation records: the header's clock in the given
      year, or `now` when the clock does not parse. */
  function JournalTimestamp(stamp: string, year: int, now: Timestamp): (t: Timestamp)
    ensures ParseJournalClock(stamp).None? ==> t == now
    ensures ParseJournalClock(stamp).Some? ==> t.year == year && t.zone == Local
  {
    match ParseJournalClock(stamp)
    case None => now
    case Some(c) => InYear(year, c)
  }

  /** A timestamp that reads back carries the supplied year and its own
      month, day and time of day; the journal's "Jan 02" never names a
      29 February outside a leap year, since the journal writes real dates. */
  lemma LemmaJournalTimestampOfFormat(c: Clock, year: int, now: Timestamp)
    requires ValidClock(c) && c.day <= DaysIn(c.month, year)
    ensures JournalTimestamp(FormatClock(c), year, now)
              == Timestamp(year, c.month, c.day, c.hour, c.minute, c.second, 0, Local)
  {
    LemmaParseFormatClock(c);
  }

  // ---------------------------------------------------------------------
  // parseViolation
  // ---------------------------------------------------------------------

  /** The relevance test: the process is bubblewrap by name, or its message
      says so. */
  function ConcernsBubblewrap(name: string, msg: string): (b: bool)
    ensures b <==> (exists i :: LowerOccurs(name, i, "bwrap")) || (exists i :: LowerOccurs(msg, i, "bubblewrap"))
  {
    LemmaContainsLower(name, "bwrap");
    LemmaContainsLower(msg, "bubblewrap");
    Contains(ToLower(name), "bwrap") || Contains(ToLower(msg), "bubblewrap")
  }

  /** What parseViolation makes of a line whose header matched with spans h:
      nothing unless the line concerns bubblewrap, and otherwise the clock in
      the given year (or `now`), the process name before `[`, the digits
      inside the brackets, the denial's operation and path, and EPERM. */
  function ViolationOf(line: string, h: HeaderSpans, year: int, now: Timestamp): (r: Option<Violation>)
    requires IsHeaderMatch(line, h)
    ensures r.Some? <==> ConcernsBubblewrap(line[h.nameStart..h.nameEnd], line[h.msgStart..])
    ensures r.Some? ==> r.value.rawLine == line && r.value.denyCode == "EPERM"
  {
    var name := line[h.nameStart..h.nameEnd];
    var msg := line[h.msgStart..];
    if !ConcernsBubblewrap(name, msg) then None
    else
      var (operation, path) := Denial(msg);
      Some(Violation(JournalTimestamp(line[..h.clockStart + 8], year, now),
                     name, line[h.nameEnd + 1..h.pidEnd], operation, path, "EPERM", line))
  }

  /** The violation a journal line describes, if any. `year` stands for the
      current year and `now` for the clock reading taken when the timestamp
      does not parse. */
  function ParseViolation(line: string, year: int, now: Timestamp): (r: Option<Violation>)
    ensures (forall h :: !IsHeaderMatch(line, h)) ==> r.None?
    ensures r.Some? ==> r.value.rawLine == line && r.value.denyCode == "EPERM"
  {
    match MatchHeader(line)
    case None => None
    case Some(h) => ViolationOf(line, h, year, now)
  }

  /** For the header match the regexp engine picks, the violation is what
      ViolationOf makes of its groups. */
  lemma LemmaParseViolationFields(line: string, h: HeaderSpans, year: int, now: Timestamp)
    requires IsChosenHeader(line, h)
    ensures ParseViolation(line, year, now) == ViolationOf(line, h, year, now)
  {
    LemmaChosenHeaderFound(line, h);
  }

  // ---------------------------------------------------------------------
  // parseJournalOutput
  // ---------------------------------------------------------------------

  /** The pre-filter: the lower-cased line mentions bwrap, bubblewrap or a
      permission denial. */
  function MentionsSandboxing(line: string): (b: bool)
    ensures b <==> exists i :: || LowerOccurs(line, i, "bwrap") || LowerOccurs(line, i, "bubblewrap")
                              || LowerOccurs(line, i, "permission denied")
  {
    LemmaContainsLower(line, "bwrap");
    LemmaContainsLower(line, "bubblewrap");
    LemmaContainsLower(line, "permission denied");
    var lower := ToLower(line);
    Contains(lower, "bwrap") || Contains(lower, "bubblewrap") || Contains(lower, "permission denied")
  }

  /** parseViolation with the year and the fallback clock reading fixed, as
      parseJournalOutput calls it for every line. */
  function JournalParser(year: int, now: Timestamp): (parse: string -> Option<Violation>)
    ensures forall line :: parse(line) == ParseViolation(line, year, now)
  {
    line => ParseViolation(line, year, now)
  }

  /** A line that concerns bubblewrap passes the pre-filter: the process
      name and the message are pieces of the line. */
  lemma LemmaConcernsPassesFilter(line: string, h: HeaderSpans)
    requires IsHeaderMatch(line, h)
    requires ConcernsBubblewrap(line[h.nameStart..h.nameEnd], line[h.msgStart..])
    ensures MentionsSandboxing(line)
  {
    if Contains(ToLower(line[h.nameStart..h.nameEnd]), "bwrap") {
      LemmaContainsLowerInfix(line, h.nameStart, h.nameEnd, "bwrap");
    } else {
      assert line[h.msgStart..|line|] == line[h.msgStart..];
      LemmaContainsLowerInfix(line, h.msgStart, |line|, "bubblewrap");
    }
  }

  /** Every line parseViolation accepts passes the pre-filter. */
  lemma LemmaFilterKeepsEveryViolation(line: string, year: int, now: Timestamp)
    ensures ParseViolation(line, year, now).Some? ==> MentionsSandboxing(line)
  {
    if ParseViolation(line, year, now).Some? {
      var h := MatchHeader(line).value;
      assert ViolationOf(line, h, year, now).Some?;
      LemmaConcernsPassesFilter(line, h);
    }
  }

  /** The pre-filter only saves work: it never drops a violation. */
  lemma LemmaPreFilterIsTransparent(lines: seq<string>, year: int, now: Timestamp)
    ensures LogLines.ParseLines(lines, MentionsSandboxing, JournalParser(year, now))
              == LogLines.ParseLines(lines, LogLines.AnyLine, JournalParser(year, now))
  {
    forall i | 0 <= i < |lines| && JournalParser(year, now)(lines[i]).Some?
      ensures MentionsSandboxing(lines[i])
    {
      LemmaFilterKeepsEveryViolation(lines[i], year, now);
    }
    LogLines.LemmaTransparentFilter(lines, MentionsSandboxing, JournalParser(year, now));
  }

  /** parseJournalOutput: the violations of the lines the scanner delivers,
      and a scanning error naming the journal when it gave up on an
      over-long line. */
  function ParseJournalOutput(output: string, year: int, now: Timestamp): (r: Collected)
    ensures r.err.Some? <==> HasOverlongLine(output)
    ensures r.err.Some? ==> r.err.value == ScanFailed("journal")
    ensures r.err.None? ==> r.violations == LogLines.ParseLines(Lines(output), MentionsSandboxing, JournalParser(year, now))
    ensures r.err.Some? ==> exists k :: && FirstOverlong(output, k)
                                        && r.violations == LogLines.ParseLines(Lines(output)[..k], MentionsSandboxing, JournalParser(year, now))
    ensures output == [] ==> r == Collected([], None)
  {
    LogLines.ParseOutput(output, "journal", MentionsSandboxing, JournalParser(year, now))
  }

  /** Every violation reported from the journal is one of its lines, a line
      that mentions sandboxing, recorded with the EPERM code. */
  lemma LemmaJournalViolationsAreLines(output: string, year: int, now: Timestamp)
    ensures forall v :: v in ParseJournalOutput(output, year, now).violations ==>
              && v.rawLine in Lines(output) && MentionsSandboxing(v.rawLine) && v.denyCode == "EPERM"
  {
    LogLines.LemmaViolationsFromLines(output, "journal", MentionsSandboxing, JournalParser(year, now));
  }

  // ---------------------------------------------------------------------
  // CollectViolations and collectFromDmesg
  // ---------------------------------------------------------------------

  /** collectFromDmesg, given what running `dmesg -T` gave back. The scanning
      error names the journal, as the shared parser words it. */
  function CollectFromDmesg(dmesg: CommandOutcome, year: int, now: Timestamp): (r: Collected)
    ensures dmesg.Failed? ==> r == Collected([], Some(ExecFailed("dmesg", dmesg.cause)))
    ensures dmesg.Ran? ==> r == ParseJournalOutput(dmesg.stdout, year, now)
    ensures dmesg.Ran? ==> r.err.None? || r.err == Some(ScanFailed("journal"))
    ensures dmesg.Ran? ==> forall v :: v in r.violations ==> v.rawLine in Lines(dmesg.stdout)
  {
    match dmesg
    case Failed(cause) => Collected([], Some(ExecFailed("dmesg", cause)))
    case Ran(output) => ParseJournalOutput(output, year, now)
  }

  /** CollectViolations, given what running journalctl and, if it came to
      that, `dmesg -T` gave back. */
  function CollectViolations(journal: CommandOutcome, dmesg: CommandOutcome, year: int, now: Timestamp): (r: Collected)
    ensures journal.Ran? ==> r == ParseJournalOutput(journal.stdout, year, now)
    ensures journal.Failed? ==> r == CollectFromDmesg(dmesg, year, now)
    ensures r.err.Some? && r.err.value.ExecFailed? ==> r.violations == [] && journal.Failed? && dmesg.Failed?
    ensures journal.Ran? ==> forall v :: v in r.violations ==> v.rawLine in Lines(journal.stdout)
  {
    match journal
    case Failed(_) => CollectFromDmesg(dmesg, year, now)
    case Ran(output) => ParseJournalOutput(output, year, now)
  }

  /** When journalctl runs, dmesg is never consulted; when it fails, why it
      failed makes no difference; when both fail, the error is dmesg's. */
  lemma LemmaFallbackOnlyOnFailure(journal: CommandOutcome, d1: CommandOutcome, d2: CommandOutcome, cause: string, year: int, now: Timestamp)
    ensures journal.Ran? ==> CollectViolations(journal, d1, year, now) == CollectViolations(journal, d2, year, now)
    ensures journal.Failed? ==> CollectViolations(journal, d1, year, now) == CollectViolations(Failed(cause), d1, year, now)
    ensures journal.Failed? && d1.Failed? ==>
              CollectViolations(journal, d1, year, now) == Collected([], Some(ExecFailed("dmesg", d1.cause)))
  {
  }

  /** No line that begins with `[` has a journal header. */
  lemma LemmaBracketLineHasNoHeader(line: string, year: int, now: Timestamp)
    requires |line| > 0 && line[0] == '['
    ensures forall h :: !IsHeaderMatch(line, h)
    ensures ParseViolation(line, year, now).None?
  {
    assert !In(line[0], Word);
    forall h | IsHeaderMatch(line, h) ensures false {
    }
  }

  /** `dmesg -T` lines begin with a bracketed time, so when journalctl fails
      the fallback finds no violations. */
  lemma LemmaDmesgYieldsNothing(output: string, journalCause: string, year: int, now: Timestamp)
    requires forall i :: 0 <= i < |Lines(output)| ==> |Lines(output)[i]| > 0 && Lines(output)[i][0] == '['
    ensures CollectViolations(Failed(journalCause), Ran(output), year, now).violations == []
  {
    var scan := Scan(output);
    forall i | 0 <= i < |scan.lines| ensures JournalParser(year, now)(scan.lines[i]).None? {
      assert scan.lines[i] == Lines(output)[i];
      LemmaBracketLineHasNoHeader(scan.lines[i], year, now);
    }
    LogLines.LemmaNothingParses(scan.lines, MentionsSandboxing, JournalParser(year, now));
  }
}
