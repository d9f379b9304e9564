/**
 * The schedule-line pattern `LINE_RE` (built from `WEEKDAYS`, `DATE_RE` and
 * `TIME_RE`) as a hand-written matcher.
 *
 * A match is described by its cut points: the positions in the line where
 * each piece of the pattern begins and ends, as `re` reports them with
 * `m.start(g)` and `m.end(g)`. `Fits` says when cut points form a match,
 * piece by piece, under the character classes of the pattern; this is the
 * declarative reading of the regex. `MatchAt` is the operational reading: it
 * makes the choices Python's backtracking makes (greedy quantifiers, the
 * optional ` Uhr` preferred over leaving it in the body). `MatchAt` is sound
 * (its ensures) and complete (`MatchAtComplete`) with respect to `Fits`.
 */
module LineGrammar {
  import opened Wrappers
  import opened Chars

  /** The number of entries of `WEEKDAYS`. */
  const WeekdayCount: nat := 14

  /** Entry k of `WEEKDAYS`, in the order of the regex alternation. */
  function Weekday(k: nat): string
    requires k < WeekdayCount
  {
    match k
    case 0 => "Mo"
    case 1 => "Di"
    case 2 => "Mi"
    case 3 => "Do"
    case 4 => "Fr"
    case 5 => "Sa"
    case 6 => "So"
    case 7 => "Montag"
    case 8 => "Dienstag"
    case 9 => "Mittwoch"
    case 10 => "Donnerstag"
    case 11 => "Freitag"
    case 12 => "Samstag"
    case _ => "Sonntag"
  }

  /** w is one of the weekdays of the table. */
  predicate IsWeekday(w: string) {
    InTable(w, 0)
  }

  /** w is one of the entries of the table from entry k on. */
  predicate InTable(w: string, k: nat)
    decreases WeekdayCount - k
  {
    k < WeekdayCount && (w == Weekday(k) || InTable(w, k + 1))
  }

  /** `[A-Za-zäöüÄÖÜ]`, a letter of a month name. */
  predicate IsMonthLetter(c: char) {
    IsAsciiLetter(c) || c == 'ä' || c == 'ö' || c == 'ü' || c == 'Ä' || c == 'Ö' || c == 'Ü'
  }

  /** `[.\s]`, between day and month. */
  predicate IsDaySep(c: char) { c == '.' || IsSpace(c) }

  /** `[.:]`, between hour and minute. */
  predicate IsTimeSep(c: char) { c == '.' || c == ':' }

  /** The character classes the pattern repeats: `\d`, `\s` and `[A-Za-zäöüÄÖÜ]`. */
  datatype Class = Digit | Space | MonthLetter | Letter

  predicate InClass(cls: Class, c: char) {
    match cls
    case Digit => IsDigit(c)
    case Space => IsSpace(c)
    case MonthLetter => IsMonthLetter(c)
    case Letter => IsAsciiLetter(c)
  }

  /** Every character from x up to y belongs to cls. */
  predicate AllIn(line: string, x: nat, y: nat, cls: Class) {
    x <= y <= |line| && forall k {:trigger InClass(cls, line[k])} :: x <= k < y ==> InClass(cls, line[k])
  }

  /** The end of the longest run of cls characters starting at i (a greedy `+` or `*`). */
  function RunEnd(line: string, i: nat, cls: Class): (j: nat)
    requires i <= |line|
    ensures i <= j && AllIn(line, i, j, cls)
    ensures j < |line| ==> !InClass(cls, line[j])
    decreases |line| - i
  {
    if i < |line| && InClass(cls, line[i]) then RunEnd(line, i + 1, cls) else i
  }

  /** A run of cls characters that the next character ends is exactly what RunEnd finds. */
  lemma {:induction false} RunEndOver(line: string, x: nat, y: nat, cls: Class)
    requires AllIn(line, x, y, cls) && (y == |line| || !InClass(cls, line[y]))
    ensures RunEnd(line, x, cls) == y
    decreases y - x
  {
    if x < y {
      RunEndOver(line, x + 1, y, cls);
    }
  }

  /** The literal `Uhr` at position x. */
  predicate UhrAt(line: string, x: nat) {
    x + 3 <= |line| && line[x] == 'U' && line[x + 1] == 'h' && line[x + 2] == 'r'
  }

  /**
   * Cut points of `DATE_RE`: the day runs from start to dayEnd, the separator
   * stands at dayEnd, the month runs from dayEnd + 1 to monthEnd (followed by
   * its `.` when numeric), the optional dot ends at dotEnd, and the year, when
   * present, starts at the given position after the whitespace; end is where
   * the date stops.
   */
  datatype DateCuts = DateCuts(start: nat, dayEnd: nat, numeric: bool, monthEnd: nat,
                               dotEnd: nat, year: Option<nat>, end: nat)

  /** Where the month alternative `(?:\d{1,2}[.]|[A-Za-zäöüÄÖÜ]+)` ends. */
  function MonthPieceEnd(dc: DateCuts): nat {
    if dc.numeric then dc.monthEnd + 1 else dc.monthEnd
  }

  /**
   * `(?P<d>\d{1,2})[.\s](?:(?P<mon>\d{1,2})[.]|(?P<mon_name>[A-Za-zäöüÄÖÜ]+))\.?\s*(?P<y>\d{4})?`;
   * without a year the whitespace is left to the gap that follows the date.
   */
  predicate DateFits(line: string, dc: DateCuts) {
    DayFits(line, dc) && MonthFits(line, dc) && DotYearFits(line, dc)
  }

  /** `(?P<d>\d{1,2})[.\s]`. */
  predicate DayFits(line: string, dc: DateCuts) {
    && AllIn(line, dc.start, dc.dayEnd, Digit) && 1 <= dc.dayEnd - dc.start <= 2
    && dc.dayEnd < |line| && IsDaySep(line[dc.dayEnd])
  }

  /** `(?:(?P<mon>\d{1,2})[.]|(?P<mon_name>[A-Za-zäöüÄÖÜ]+))`. */
  predicate MonthFits(line: string, dc: DateCuts) {
    if dc.numeric
    then AllIn(line, dc.dayEnd + 1, dc.monthEnd, Digit) && 1 <= dc.monthEnd - (dc.dayEnd + 1) <= 2
         && dc.monthEnd < |line| && line[dc.monthEnd] == '.'
    else AllIn(line, dc.dayEnd + 1, dc.monthEnd, MonthLetter) && dc.dayEnd + 1 < dc.monthEnd
  }

  /** `\.?\s*(?P<y>\d{4})?`. */
  predicate DotYearFits(line: string, dc: DateCuts) {
    && (dc.dotEnd == MonthPieceEnd(dc)
        || (dc.dotEnd == MonthPieceEnd(dc) + 1 && MonthPieceEnd(dc) < |line| && line[MonthPieceEnd(dc)] == '.'))
    && match dc.year
       case None => dc.end == dc.dotEnd
       case Some(y) => AllIn(line, dc.dotEnd, y, Space) && AllIn(line, y, y + 4, Digit) && dc.end == y + 4
  }

  /** Cut points of `(?P<h>\d{1,2})[.:](?P<m>\d{2})`: the hour ends at hourEnd, the minute two places later. */
  datatype TimeCuts = TimeCuts(start: nat, hourEnd: nat)

  function TimeEnd(t: TimeCuts): nat { t.hourEnd + 3 }

  predicate TimeFits(line: string, t: TimeCuts) {
    && AllIn(line, t.start, t.hourEnd, Digit) && 1 <= t.hourEnd - t.start <= 2
    && t.hourEnd + 3 <= |line| && IsTimeSep(line[t.hourEnd])
    && AllIn(line, t.hourEnd + 1, t.hourEnd + 3, Digit)
  }

  /** `(?:\s*Uhr)?` between x and y. */
  predicate UnitFits(line: string, x: nat, y: nat) {
    y == x || (x + 3 <= y && AllIn(line, x, y - 3, Space) && UhrAt(line, y - 3))
  }

  /** Cut points of a whole match of `LINE_RE`. */
  datatype Cuts = Cuts(start: nat, weekdayEnd: nat, date: DateCuts, time: TimeCuts, unitEnd: nat, bodyStart: nat)

  /** `\s+TIME_RE` from position x: a non-empty gap of whitespace, then the time. */
  predicate GapThenTime(line: string, x: nat, t: TimeCuts) {
    AllIn(line, x, t.start, Space) && x < t.start && TimeFits(line, t)
  }

  /** `(?:\s*Uhr)?\s+(?P<after>.+)$` from position x: the unit ends at u and the body starts at v. */
  predicate TailFits(line: string, x: nat, u: nat, v: nat) {
    UnitFits(line, x, u) && AllIn(line, u, v, Space) && u < v < |line|
  }

  /** The part of the pattern after `DATE_RE`. */
  predicate FitsAfterDate(line: string, c: Cuts) {
    GapThenTime(line, c.date.end, c.time) && TailFits(line, TimeEnd(c.time), c.unitEnd, c.bodyStart)
  }

  /** The part of the pattern after the weekday. */
  predicate FitsAfterWeekday(line: string, c: Cuts) {
    && AllIn(line, c.weekdayEnd, c.date.start, Space) && c.weekdayEnd < c.date.start
    && DateFits(line, c.date)
    && FitsAfterDate(line, c)
  }

  /** `(?P<wd>...)\s+DATE_RE\s+TIME_RE\s+(?P<after>.+)$`, read on one line. */
  predicate Fits(line: string, c: Cuts) {
    WeekdayFits(line, c) && FitsAfterWeekday(line, c)
  }

  /** `(?P<wd>Mo|Di|...|Sonntag)`: the text from start to weekdayEnd is a weekday of the table. */
  predicate WeekdayFits(line: string, c: Cuts) {
    c.start <= c.weekdayEnd <= |line| && IsWeekday(line[c.start..c.weekdayEnd])
  }

  /** The month of a date fragment: the `mon` group or the `mon_name` group. */
  datatype MonthPart = Numeric(digits: string) | Named(name: string)

  /** The groups `wd`, `d`, `mon`/`mon_name`, `y`, `h`, `m` and `after` of one match. */
  datatype Fragments = Fragments(weekday: string, day: string, month: MonthPart,
                                 year: Option<string>, hour: string, minute: string, body: string)

  /** The groups a match reports: the text between its cut points. */
  function GroupsOf(line: string, c: Cuts): (f: Fragments)
    requires Fits(line, c)
    ensures GroupsWellFormed(f)
  {
    Fragments(line[c.start..c.weekdayEnd], DayGroup(line, c.date), MonthGroup(line, c.date),
              YearGroup(line, c.date), HourGroup(line, c.time), MinuteGroup(line, c.time),
              line[c.bodyStart..])
  }

  /**
   * The groups of a recognised line: a weekday of the table, digits where the
   * pattern has numbers, a month of the right shape and a non-empty body.
   */
  predicate GroupsWellFormed(f: Fragments) {
    && IsWeekday(f.weekday)
    && 1 <= |f.day| <= 2 && AllDigits(f.day)
    && MonthWellFormed(f.month)
    && (f.year.Some? ==> |f.year.value| == 4 && AllDigits(f.year.value))
    && 1 <= |f.hour| <= 2 && AllDigits(f.hour)
    && |f.minute| == 2 && AllDigits(f.minute)
    && f.body != []
  }

  predicate MonthWellFormed(m: MonthPart) {
    match m
    case Numeric(ds) => 1 <= |ds| <= 2 && AllDigits(ds)
    case Named(n) => n != [] && forall k :: 0 <= k < |n| ==> IsMonthLetter(n[k])
  }

  /** The group `d`. */
  function DayGroup(line: string, dc: DateCuts): (r: string)
    requires DayFits(line, dc)
    ensures 1 <= |r| <= 2 && AllDigits(r)
  {
    DigitsSlice(line, dc.start, dc.dayEnd);
    line[dc.start..dc.dayEnd]
  }

  /** The group `mon` or `mon_name`, whichever took part in the match. */
  function MonthGroup(line: string, dc: DateCuts): (r: MonthPart)
    requires MonthFits(line, dc)
    ensures MonthWellFormed(r)
    ensures r.Numeric? == dc.numeric
  {
    if dc.numeric then
      DigitsSlice(line, dc.dayEnd + 1, dc.monthEnd);
      Numeric(line[dc.dayEnd + 1..dc.monthEnd])
    else
      MonthLettersSlice(line, dc.dayEnd + 1, dc.monthEnd);
      Named(line[dc.dayEnd + 1..dc.monthEnd])
  }

  /** The group `y`, absent when the date has no year. */
  function YearGroup(line: string, dc: DateCuts): (r: Option<string>)
    requires DotYearFits(line, dc)
    ensures r.Some? == dc.year.Some?
    ensures r.Some? ==> |r.value| == 4 && AllDigits(r.value)
  {
    match dc.year
    case None => None
    case Some(y) =>
      DigitsSlice(line, y, y + 4);
      Some(line[y..y + 4])
  }

  /** The group `h`. */
  function HourGroup(line: string, t: TimeCuts): (r: string)
    requires TimeFits(line, t)
    ensures 1 <= |r| <= 2 && AllDigits(r)
  {
    DigitsSlice(line, t.start, t.hourEnd);
    line[t.start..t.hourEnd]
  }

  /** The group `m`. */
  function MinuteGroup(line: string, t: TimeCuts): (r: string)
    requires TimeFits(line, t)
    ensures |r| == 2 && AllDigits(r)
  {
    DigitsSlice(line, t.hourEnd + 1, t.hourEnd + 3);
    line[t.hourEnd + 1..t.hourEnd + 3]
  }

  lemma DigitsSlice(line: string, x: nat, y: nat)
    requires AllIn(line, x, y, Digit)
    ensures AllDigits(line[x..y])
  {
    forall k | 0 <= k < y - x
      ensures IsDigit(line[x..y][k])
    {
      assert InClass(Digit, line[x + k]);
    }
  }

  lemma MonthLettersSlice(line: string, x: nat, y: nat)
    requires AllIn(line, x, y, MonthLetter)
    ensures forall k :: 0 <= k < y - x ==> IsMonthLetter(line[x..y][k])
  {
    forall k | 0 <= k < y - x
      ensures IsMonthLetter(line[x..y][k])
    {
      assert InClass(MonthLetter, line[x + k]);
    }
  }

  /** `(?:(?P<mon>\d{1,2})[.]|(?P<mon_name>[A-Za-zäöüÄÖÜ]+))` at position s: whether numeric, and where the name or digits end. */
  datatype MonthMatch = NoMonth | MonthEnd(numeric: bool, end: nat)
  function MonthAt(line: string, s: nat): (r: MonthMatch)
    requires s <= |line|
    ensures r.MonthEnd? && r.numeric ==>
              AllIn(line, s, r.end, Digit) && 1 <= r.end - s <= 2 && r.end < |line| && line[r.end] == '.'
    ensures r.MonthEnd? && !r.numeric ==> AllIn(line, s, r.end, MonthLetter) && s < r.end
  {
    if s < |line| && IsDigit(line[s]) then
      var e := RunEnd(line, s, Digit);
      if e - s <= 2 && e < |line| && line[e] == '.' then MonthEnd(true, e) else NoMonth
    else if s < |line| && IsMonthLetter(line[s]) then
      MonthEnd(false, RunEnd(line, s, MonthLetter))
    else NoMonth
  }

  /** `\.?` at position p: the dot is taken when present. */
  function DotEnd(line: string, p: nat): (r: nat)
    requires p <= |line|
    ensures r == p || (r == p + 1 && p < |line| && line[p] == '.')
    ensures p < |line| && line[p] == '.' ==> r == p + 1
  {
    if p < |line| && line[p] == '.' then p + 1 else p
  }

  /** `\s*(?P<y>\d{4})?` at position x: where the year starts, when four digits follow the whitespace. */
  function YearAt(line: string, x: nat): (r: Option<nat>)
    requires x <= |line|
    ensures r.Some? ==> AllIn(line, x, r.value, Space) && AllIn(line, r.value, r.value + 4, Digit)
  {
    var q := RunEnd(line, x, Space);
    if AllIn(line, q, q + 4, Digit) then Some(q) else None
  }

  /** The rest of `DATE_RE` after a month that ends at monthEnd. */
  function DateTail(line: string, b: nat, c: nat, numeric: bool, monthEnd: nat): (r: DateCuts)
    requires (if numeric then monthEnd + 1 else monthEnd) <= |line|
    ensures r.start == b && r.dayEnd == c && r.numeric == numeric && r.monthEnd == monthEnd
    ensures r.dotEnd == MonthPieceEnd(r)
            || (r.dotEnd == MonthPieceEnd(r) + 1 && MonthPieceEnd(r) < |line| && line[MonthPieceEnd(r)] == '.')
    ensures match r.year
            case None => r.end == r.dotEnd
            case Some(y) => AllIn(line, r.dotEnd, y, Space) && AllIn(line, y, y + 4, Digit) && r.end == y + 4
  {
    var dotEnd := DotEnd(line, if numeric then monthEnd + 1 else monthEnd);
    match YearAt(line, dotEnd)
    case Some(q) => DateCuts(b, c, numeric, monthEnd, dotEnd, Some(q), q + 4)
    case None => DateCuts(b, c, numeric, monthEnd, dotEnd, None, dotEnd)
  }

  /** `DATE_RE` at position b, as the backtracking matcher takes it. */
  function DateAt(line: string, b: nat): (r: Option<DateCuts>)
    requires b <= |line|
    ensures r.Some? ==> r.value.start == b && DateFits(line, r.value)
  {
    var c := RunEnd(line, b, Digit);
    if c - b < 1 || c - b > 2 || c == |line| || !IsDaySep(line[c]) then None
    else match MonthAt(line, c + 1)
      case NoMonth => None
      case MonthEnd(numeric, monthEnd) => Some(DateTail(line, b, c, numeric, monthEnd))
  }

  /** `TIME_RE` without its unit, at position d. */
  function TimeAt(line: string, d: nat): (r: Option<TimeCuts>)
    requires d <= |line|
    ensures r.Some? ==> r.value.start == d && TimeFits(line, r.value)
  {
    var h := RunEnd(line, d, Digit);
    if 1 <= h - d <= 2 && h + 3 <= |line| && IsTimeSep(line[h]) && IsDigit(line[h + 1]) && IsDigit(line[h + 2])
    then Some(TimeCuts(d, h))
    else None
  }

  /**
   * Where `\s+(?P<after>.+)$` starts the body when the gap starts at x: the
   * greedy gap gives one character back when nothing else is left for the body.
   */
  function BodyStart(line: string, x: nat): (r: Option<nat>)
    requires x <= |line|
    ensures r.Some? ==> x < r.value < |line| && AllIn(line, x, r.value, Space)
  {
    var v := RunEnd(line, x, Space);
    if v == x then None
    else if v < |line| then Some(v)
    else if v - x >= 2 then Some(|line| - 1)
    else None
  }

  /**
   * `(?:\s*Uhr)?\s+(?P<after>.+)$` at position t: the end of the unit and the
   * start of the body. The unit is taken when the rest then still matches.
   */
  function TailAt(line: string, t: nat): (r: Option<(nat, nat)>)
    requires t <= |line|
    ensures r.Some? ==> UnitFits(line, t, r.value.0) && AllIn(line, r.value.0, r.value.1, Space)
                        && r.value.0 < r.value.1 < |line|
  {
    var u := RunEnd(line, t, Space);
    var withUnit := if UhrAt(line, u) then BodyStart(line, u + 3) else None;
    if withUnit.Some? then Some((u + 3, withUnit.value))
    else match BodyStart(line, t)
      case None => None
      case Some(v) => Some((t, v))
  }

  /** `\s+TIME_RE(?:\s*Uhr)?\s+(?P<after>.+)$` after the date of a match that starts at i. */
  function TimeTailAt(line: string, i: nat, a: nat, date: DateCuts): (r: Option<Cuts>)
    requires date.end <= |line|
    ensures r.Some? ==> r.value.start == i && r.value.weekdayEnd == a && r.value.date == date
                        && FitsAfterDate(line, r.value)
  {
    var d := RunEnd(line, date.end, Space);
    if d == date.end then None
    else match TimeAt(line, d)
      case None => None
      case Some(time) =>
        match TailAt(line, TimeEnd(time))
        case None => None
        case Some((u, v)) => Some(Cuts(i, a, date, time, u, v))
  }

  /** `\s+DATE_RE` and the rest of the pattern after a weekday that ends at a. */
  function DateTimeAt(line: string, i: nat, a: nat): (r: Option<Cuts>)
    requires a <= |line|
    ensures r.Some? ==> r.value.start == i && r.value.weekdayEnd == a && FitsAfterWeekday(line, r.value)
  {
    var b := RunEnd(line, a, Space);
    if b == a then None
    else match DateAt(line, b)
      case None => None
      case Some(date) => TimeTailAt(line, i, a, date)
  }

  /**
   * The match of `LINE_RE` that starts at position i, as Python's backtracking
   * finds it. Every weekday of the table is made of letters and the pattern
   * wants whitespace right after it, so the only alternative of `(?P<wd>...)`
   * that can lead to a match is the whole run of letters at i; the order of
   * the alternation does not matter.
   */
  function MatchAt(line: string, i: nat): (r: Option<Cuts>)
    requires i <= |line|
    ensures r.Some? ==> r.value.start == i && Fits(line, r.value)
  {
    var e := RunEnd(line, i, Letter);
    if IsWeekday(line[i..e]) then DateTimeAt(line, i, e) else None
  }

  /** Every weekday of the table is made of ASCII letters. */
  lemma {:induction false} WeekdaysAreLetters(w: string, j: nat)
    requires InTable(w, j)
    ensures forall k :: 0 <= k < |w| ==> IsAsciiLetter(w[k])
    decreases WeekdayCount - j
  {
    if w != Weekday(j) {
      WeekdaysAreLetters(w, j + 1);
    }
  }

  /** A weekday in a line is a run of letters. */
  lemma WeekdayIsRun(line: string, i: nat, e: nat)
    requires i <= e <= |line| && IsWeekday(line[i..e])
    ensures AllIn(line, i, e, Letter)
  {
    WeekdaysAreLetters(line[i..e], 0);
    forall k | i <= k < e
      ensures InClass(Letter, line[k])
    {
      assert line[k] == line[i..e][k - i];
    }
  }

  /**
   * In a match, the character after the month alternative exists and is not a
   * month letter, and it is a dot exactly when the optional dot was taken.
   */
  lemma AfterMonth(line: string, dc: DateCuts, t: TimeCuts)
    requires DotYearFits(line, dc) && GapThenTime(line, dc.end, t)
    ensures MonthPieceEnd(dc) < |line| && !IsMonthLetter(line[MonthPieceEnd(dc)])
    ensures line[MonthPieceEnd(dc)] == '.' <==> dc.dotEnd == MonthPieceEnd(dc) + 1
  {
    var p := MonthPieceEnd(dc);
    if dc.dotEnd == p {
      match dc.year {
        case None =>
          assert InClass(Space, line[dc.end]);
        case Some(y) =>
          if y > p {
            assert InClass(Space, line[p]);
          } else {
            assert InClass(Digit, line[y]);
          }
      }
    }
  }

  /** Four digits never stand where a time starts: its separator comes first. */
  lemma NoYearAtTime(line: string, t: TimeCuts)
    requires TimeFits(line, t)
    ensures !AllIn(line, t.start, t.start + 4, Digit)
  {
    assert !InClass(Digit, line[t.hourEnd]);
  }

  /** Four digits after the whitespace are taken as the year. */
  lemma YearAtSome(line: string, x: nat, y: nat)
    requires AllIn(line, x, y, Space) && AllIn(line, y, y + 4, Digit)
    ensures YearAt(line, x) == Some(y)
  {
    assert InClass(Digit, line[y]);
    RunEndOver(line, x, y, Space);
  }

  /** When the whitespace leads to a time, there is no year. */
  lemma YearAtNone(line: string, x: nat, t: TimeCuts)
    requires GapThenTime(line, x, t)
    ensures YearAt(line, x) == None
  {
    assert InClass(Digit, line[t.start]);
    RunEndOver(line, x, t.start, Space);
    NoYearAtTime(line, t);
  }

  /** The optional dot after the month is found by DotEnd exactly. */
  lemma DotComplete(line: string, dc: DateCuts, t: TimeCuts)
    requires DotYearFits(line, dc) && GapThenTime(line, dc.end, t)
    ensures MonthPieceEnd(dc) <= |line| && DotEnd(line, MonthPieceEnd(dc)) == dc.dotEnd
  {
    AfterMonth(line, dc, t);
  }

  /** The dot and the year of a date followed by a gap and a time are found by DateTail exactly. */
  lemma DateTailComplete(line: string, dc: DateCuts, t: TimeCuts)
    requires DotYearFits(line, dc) && GapThenTime(line, dc.end, t)
    ensures MonthPieceEnd(dc) <= |line|
    ensures DateTail(line, dc.start, dc.dayEnd, dc.numeric, dc.monthEnd) == dc
  {
    DotComplete(line, dc, t);
    match dc.year {
      case Some(y) =>
        YearAtSome(line, dc.dotEnd, y);
      case None =>
        YearAtNone(line, dc.dotEnd, t);
    }
  }

  /** A month that a non-letter ends is found by MonthAt exactly. */
  lemma MonthAtComplete(line: string, dc: DateCuts)
    requires MonthFits(line, dc) && MonthPieceEnd(dc) < |line| && !IsMonthLetter(line[MonthPieceEnd(dc)])
    ensures MonthAt(line, dc.dayEnd + 1) == MonthEnd(dc.numeric, dc.monthEnd)
  {
    if dc.numeric {
      RunEndOver(line, dc.dayEnd + 1, dc.monthEnd, Digit);
    } else {
      RunEndOver(line, dc.dayEnd + 1, dc.monthEnd, MonthLetter);
    }
  }

  /** The day and month of a date followed by a gap and a time are found by DateAt exactly. */
  lemma DateAtComplete(line: string, dc: DateCuts, t: TimeCuts)
    requires DateFits(line, dc) && GapThenTime(line, dc.end, t)
    ensures DateAt(line, dc.start) == Some(dc)
  {
    assert !InClass(Digit, line[dc.dayEnd]);
    RunEndOver(line, dc.start, dc.dayEnd, Digit);
    AfterMonth(line, dc, t);
    MonthAtComplete(line, dc);
    DateTailComplete(line, dc, t);
    DateAtPieces(line, dc);
  }

  /** DateAt put together from its day run, its month and its tail. */
  lemma DateAtPieces(line: string, dc: DateCuts)
    requires dc.start <= |line| && RunEnd(line, dc.start, Digit) == dc.dayEnd
    requires 1 <= dc.dayEnd - dc.start <= 2 && dc.dayEnd < |line| && IsDaySep(line[dc.dayEnd])
    requires MonthAt(line, dc.dayEnd + 1) == MonthEnd(dc.numeric, dc.monthEnd)
    requires MonthPieceEnd(dc) <= |line|
    requires DateTail(line, dc.start, dc.dayEnd, dc.numeric, dc.monthEnd) == dc
    ensures DateAt(line, dc.start) == Some(dc)
  {
  }

  /** A time is found by TimeAt exactly. */
  lemma TimeAtComplete(line: string, t: TimeCuts)
    requires TimeFits(line, t)
    ensures TimeAt(line, t.start) == Some(t)
  {
    assert InClass(Digit, line[t.hourEnd + 1]) && InClass(Digit, line[t.hourEnd + 2]);
    RunEndOver(line, t.start, t.hourEnd, Digit);
  }

  /**
   * A gap of whitespace followed by a non-empty body always leaves a body, and
   * the greedy gap starts it no earlier than any other split does.
   */
  lemma BodyStartSome(line: string, x: nat, v: nat)
    requires AllIn(line, x, v, Space) && x < v < |line|
    ensures BodyStart(line, x).Some? && v <= BodyStart(line, x).value
  {
    var w := RunEnd(line, x, Space);
    assert w >= v;
  }

  /**
   * Of two ways to cut a match's tail, the backtracking takes the one that
   * ends the optional `Uhr` later (it tries the unit first) and, for the same
   * unit, starts the body later (the gap `\s+` is greedy).
   */
  predicate Prefers(u1: nat, v1: nat, u2: nat, v2: nat) {
    u2 < u1 || (u2 == u1 && v2 <= v1)
  }

  /** The tail of a match is always accepted, with or without its unit, and the split taken is the preferred one. */
  lemma TailAtComplete(line: string, x: nat, u: nat, v: nat)
    requires x <= |line| && TailFits(line, x, u, v)
    ensures TailAt(line, x).Some?
    ensures Prefers(TailAt(line, x).value.0, TailAt(line, x).value.1, u, v)
  {
    if u == x {
      BodyStartSome(line, x, v);
    } else {
      RunEndOver(line, x, u - 3, Space);
      BodyStartSome(line, u, v);
    }
  }

  /** Whatever follows the date in a match is accepted, with the same time. */
  lemma TimeTailAtComplete(line: string, c: Cuts)
    requires FitsAfterDate(line, c)
    ensures c.date.end <= |line|
    ensures TimeTailAt(line, c.start, c.weekdayEnd, c.date).Some?
    ensures TimeTailAt(line, c.start, c.weekdayEnd, c.date).value.time == c.time
    ensures var m := TimeTailAt(line, c.start, c.weekdayEnd, c.date).value;
            Prefers(m.unitEnd, m.bodyStart, c.unitEnd, c.bodyStart)
  {
    assert InClass(Digit, line[c.time.start]);
    RunEndOver(line, c.date.end, c.time.start, Space);
    TimeAtComplete(line, c.time);
    TailAtComplete(line, TimeEnd(c.time), c.unitEnd, c.bodyStart);
  }

  /** Whatever follows the weekday in a match is accepted, with the same date and time. */
  lemma DateTimeAtComplete(line: string, c: Cuts)
    requires FitsAfterWeekday(line, c)
    ensures c.weekdayEnd <= |line|
    ensures DateTimeAt(line, c.start, c.weekdayEnd).Some?
    ensures DateTimeAt(line, c.start, c.weekdayEnd).value.date == c.date
    ensures DateTimeAt(line, c.start, c.weekdayEnd).value.time == c.time
    ensures var m := DateTimeAt(line, c.start, c.weekdayEnd).value;
            Prefers(m.unitEnd, m.bodyStart, c.unitEnd, c.bodyStart)
  {
    assert InClass(Digit, line[c.date.start]);
    RunEndOver(line, c.weekdayEnd, c.date.start, Space);
    DateAtComplete(line, c.date, c.time);
    TimeTailAtComplete(line, c);
  }

  /**
   * Every match at position i is found by MatchAt, with the same weekday,
   * date and time; of the ways to split the rest between an optional `Uhr`
   * and the body, MatchAt takes the one Python's backtracking takes.
   */
  lemma MatchAtComplete(line: string, c: Cuts)
    requires Fits(line, c)
    ensures MatchAt(line, c.start).Some?
    ensures MatchAt(line, c.start).value.weekdayEnd == c.weekdayEnd
    ensures MatchAt(line, c.start).value.date == c.date && MatchAt(line, c.start).value.time == c.time
    ensures var m := MatchAt(line, c.start).value; Prefers(m.unitEnd, m.bodyStart, c.unitEnd, c.bodyStart)
  {
    assert InClass(Space, line[c.weekdayEnd]);
    WeekdayIsRun(line, c.start, c.weekdayEnd);
    RunEndOver(line, c.start, c.weekdayEnd, Letter);
    assert MatchAt(line, c.start) == DateTimeAt(line, c.start, c.weekdayEnd);
    DateTimeAtComplete(line, c);
  }

  /** The pattern matches at position j of the line. */
  predicate MatchesAt(line: string, j: nat) {
    j <= |line| && MatchAt(line, j).Some?
  }

  /** `LINE_RE.search(line)`: the cut points of the leftmost match. */
  function Search(line: string): (r: Option<Cuts>)
    ensures r.Some? ==> Fits(line, r.value)
  {
    match FirstFrom(0, |line|, (j: nat) => MatchesAt(line, j))
    case None => None
    case Some(k) => MatchAt(line, k)
  }

  /** `LINE_RE.search(line)`, reduced to its groups. */
  function Recognize(line: string): (r: Option<Fragments>)
    ensures r.Some? ==> GroupsWellFormed(r.value)
  {
    match Search(line)
    case None => None
    case Some(c) => Some(GroupsOf(line, c))
  }

  /**
   * Among the matches starting where `search` found one, the groups come from
   * the split Python's backtracking prefers: `after` is the text from the
   * latest body start after the latest unit end.
   */
  lemma RecognizedSplit(line: string, c: Cuts)
    requires Fits(line, c) && Search(line).Some? && Search(line).value.start == c.start
    ensures var m := Search(line).value;
            && Prefers(m.unitEnd, m.bodyStart, c.unitEnd, c.bodyStart)
            && Recognize(line) == Some(GroupsOf(line, m)) && Recognize(line).value.body == line[m.bodyStart..]
  {
    var k := FirstFrom(0, |line|, (j: nat) => MatchesAt(line, j));
    assert Search(line) == MatchAt(line, k.value);
    MatchAtComplete(line, c);
  }

  /**
   * `search` finds a match exactly when the line holds one, and the match it
   * finds starts no later than any other.
   */
  lemma SearchLeftmost(line: string, c: Cuts)
    requires Fits(line, c)
    ensures Search(line).Some? && Search(line).value.start <= c.start
  {
    MatchAtComplete(line, c);
    var p := (j: nat) => MatchesAt(line, j);
    assert p(c.start);
    var r := FirstFrom(0, |line|, p);
    assert r.Some? && r.value <= c.start;
    assert Search(line) == MatchAt(line, r.value);
  }
}
