/** `str.splitlines()`, which cuts the bulletin text into lines. */
module Lines {
  import opened Chars
  import opened Seqs

  /** `str.splitlines()`: the text between line breaks, `\r\n` counting as one break. */
  function SplitLines(s: string): (r: seq<string>)
    ensures forall k, m :: 0 <= k < |r| && 0 <= m < |r[k]| ==> IsLineChar(r[k][m])
    ensures r == [] <==> s == []
    decreases |s|
  {
    if s == [] then []
    else
      var e := Span(s, 0, IsLineChar);
      if e == |s| then [s]
      else
        var next := if s[e] == '\r' && e + 1 < |s| && s[e + 1] == '\n' then e + 2 else e + 1;
        [s[..e]] + SplitLines(s[next..])
  }

  /** The characters of s that are not line breaks. */
  function LineChars(s: string): (r: string)
    ensures |r| <= |s|
  {
    if s == [] then [] else (if IsLineChar(s[0]) then [s[0]] else []) + LineChars(s[1..])
  }

  lemma {:induction false} LineCharsAll(s: string)
    requires forall k :: 0 <= k < |s| ==> IsLineChar(s[k])
    ensures LineChars(s) == s
    decreases |s|
  {
    if s != [] {
      LineCharsAll(s[1..]);
      assert s == [s[0]] + s[1..];
    }
  }

  /** Line characters from i up to e are all kept. */
  lemma {:induction false} KeepLine(s: string, i: nat, e: nat)
    requires i <= e <= |s|
    requires forall k :: i <= k < e ==> IsLineChar(s[k])
    ensures LineChars(s[i..]) == s[i..e] + LineChars(s[e..])
    decreases e - i
  {
    if i == e {
      assert s[i..e] == [];
    } else {
      assert s[i..][0] == s[i] && s[i..][1..] == s[i + 1..];
      assert LineChars(s[i..]) == [s[i]] + LineChars(s[i + 1..]);
      KeepLine(s, i + 1, e);
      var tail := LineChars(s[e..]);
      assert [s[i]] + (s[i + 1..e] + tail) == ([s[i]] + s[i + 1..e]) + tail;
      assert [s[i]] + s[i + 1..e] == s[i..e];
    }
  }

  /** The break at e, one character or `\r\n`, is dropped. */
  lemma DropBreak(s: string, e: nat, next: nat)
    requires e < |s| && !IsLineChar(s[e])
    requires next == e + 1 || (next == e + 2 <= |s| && !IsLineChar(s[e + 1]))
    ensures LineChars(s[e..]) == LineChars(s[next..])
  {
    assert s[e..][0] == s[e] && s[e..][1..] == s[e + 1..];
    if next == e + 2 {
      assert s[e + 1..][0] == s[e + 1] && s[e + 1..][1..] == s[next..];
    }
  }

  /** A line, then its break: only the line's characters are kept. */
  lemma LineThenBreak(s: string, e: nat, next: nat)
    requires e < |s| && !IsLineChar(s[e])
    requires next == e + 1 || (next == e + 2 <= |s| && !IsLineChar(s[e + 1]))
    requires forall k :: 0 <= k < e ==> IsLineChar(s[k])
    ensures LineChars(s) == s[..e] + LineChars(s[next..])
  {
    KeepLine(s, 0, e);
    DropBreak(s, e, next);
    assert s[0..] == s && s[0..e] == s[..e];
  }

  /** The lines hold every character of the text except the line breaks, in order. */
  lemma {:induction false} SplitLinesKeepsText(s: string)
    ensures Concat(SplitLines(s)) == LineChars(s)
    decreases |s|
  {
    if s != [] {
      var e := Span(s, 0, IsLineChar);
      if e == |s| {
        LineCharsAll(s);
        assert Concat([s]) == s + Concat([]);
      } else {
        var next := if s[e] == '\r' && e + 1 < |s| && s[e + 1] == '\n' then e + 2 else e + 1;
        assert next == e + 2 ==> s[e + 1] == '\n';
        SplitLinesKeepsText(s[next..]);
        LineThenBreak(s, e, next);
        var ls := SplitLines(s);
        assert ls == [s[..e]] + SplitLines(s[next..]);
        assert ls[0] == s[..e] && ls[1..] == SplitLines(s[next..]);
      }
    }
  }

  /** The text with every line break, `\r\n` counting as one, written as `\n`. */
  function UnifyBreaks(s: string): (r: string)
    ensures s != [] ==> r != []
  {
    if s == [] then []
    else if s[0] == '\r' && |s| > 1 && s[1] == '\n' then "\n" + UnifyBreaks(s[2..])
    else (if IsLineChar(s[0]) then [s[0]] else "\n") + UnifyBreaks(s[1..])
  }

  /** The text without one final `\n`, if it ends with one. */
  function DropFinalBreak(u: string): (r: string)
    ensures u != [] && u[|u| - 1] == '\n' ==> u == r + "\n"
    ensures (u == [] || u[|u| - 1] != '\n') ==> r == u
  {
    if u != [] && u[|u| - 1] == '\n' then u[..|u| - 1] else u
  }

  /** The lines joined with `\n` between each two of them. */
  function JoinLines(ls: seq<string>): string {
    if ls == [] then [] else if |ls| == 1 then ls[0] else ls[0] + "\n" + JoinLines(ls[1..])
  }

  /**
   * Joining the lines with `\n` gives back the text with every line break
   * written as `\n` and a final line break dropped.
   */
  lemma {:induction false} SplitLinesRoundTrip(s: string)
    ensures JoinLines(SplitLines(s)) == DropFinalBreak(UnifyBreaks(s))
    decreases |s|
  {
    if s != [] {
      var e := Span(s, 0, IsLineChar);
      if e == |s| {
        UnifyKeep(s, 0, e);
        assert s[0..] == s && s[0..e] == s && s[e..] == [];
      } else {
        var next := if s[e] == '\r' && e + 1 < |s| && s[e + 1] == '\n' then e + 2 else e + 1;
        LineThenBreakUnified(s, e, next);
        var rest := s[next..];
        var ls := SplitLines(s);
        assert ls == [s[..e]] + SplitLines(rest);
        if rest == [] {
          assert ls == [s[..e]];
          assert UnifyBreaks(s) == s[..e] + "\n";
        } else {
          SplitLinesRoundTrip(rest);
          assert ls[0] == s[..e] && ls[1..] == SplitLines(rest);
          DropFinalBreakAfter(s[..e] + "\n", UnifyBreaks(rest));
        }
      }
    }
  }

  /** Dropping a final break of a text with a non-empty tail drops it from the tail. */
  lemma DropFinalBreakAfter(a: string, b: string)
    requires b != []
    ensures DropFinalBreak(a + b) == a + DropFinalBreak(b)
  {
    if b[|b| - 1] == '\n' {
      assert (a + b)[..|a + b| - 1] == a + b[..|b| - 1];
    }
  }

  /** Line characters from i up to e are written as they are. */
  lemma {:induction false} UnifyKeep(s: string, i: nat, e: nat)
    requires i <= e <= |s|
    requires forall k :: i <= k < e ==> IsLineChar(s[k])
    ensures UnifyBreaks(s[i..]) == s[i..e] + UnifyBreaks(s[e..])
    decreases e - i
  {
    if i == e {
      assert s[i..e] == [];
    } else {
      assert s[i..][0] == s[i] && s[i..][1..] == s[i + 1..];
      assert UnifyBreaks(s[i..]) == [s[i]] + UnifyBreaks(s[i + 1..]);
      UnifyKeep(s, i + 1, e);
      AppendAssoc([s[i]], s[i + 1..e], UnifyBreaks(s[e..]));
      assert [s[i]] + s[i + 1..e] == s[i..e];
    }
  }

  /** A line, then its break: the line is written as it is, then one `\n`. */
  lemma LineThenBreakUnified(s: string, e: nat, next: nat)
    requires e < |s| && !IsLineChar(s[e]) && forall k :: 0 <= k < e ==> IsLineChar(s[k])
    requires next == (if s[e] == '\r' && e + 1 < |s| && s[e + 1] == '\n' then e + 2 else e + 1)
    ensures UnifyBreaks(s) == s[..e] + "\n" + UnifyBreaks(s[next..])
  {
    UnifyKeep(s, 0, e);
    assert s[0..] == s && s[0..e] == s[..e];
    var u := s[e..];
    assert u[0] == s[e] && u[1..] == s[e + 1..];
    if next == e + 2 {
      assert u[1] == s[e + 1] && u[2..] == s[next..];
    }
    assert UnifyBreaks(u) == "\n" + UnifyBreaks(s[next..]);
    AppendAssoc(s[..e], "\n", UnifyBreaks(s[next..]));
  }
}

/**
 * The body of `main` without its input and output: the bulletin text is cut
 * into lines, each line is examined, the accepted ones become records, and
 * the records are sorted by start. Downloading and reading the PDF files, the
 * clock and writing `today.json` are outside the model; the documents' page
 * texts, the current year and today's date come in as parameters.
 */
module Collector {
  import opened Wrappers
  import opened Chars
  import opened Ordering
  import opened Events
  import Normalizer
  import YearHint
  import LineGrammar
  import Dates
  import TitlePlace
  import Keywords
  import PlaceTable
  import opened Lines

  /** The first and the last second of today, as `start` and `end` in `main`. */
  function DayStart(today: Dates.Date): DateTime
    requires Dates.ValidDate(today)
  {
    DateTime(today.year, today.month, today.day, 0, 0, 0)
  }

  function DayEnd(today: Dates.Date): DateTime
    requires Dates.ValidDate(today)
  {
    DateTime(today.year, today.month, today.day, 23, 59, 59)
  }

  /** `start <= when <= end`. Both sides carry the same time zone, so wall-clock times are compared. */
  predicate InWindow(t: DateTime, today: Dates.Date)
    requires Dates.ValidDate(today)
  {
    !Before(t, DayStart(today)) && !Before(DayEnd(today), t)
  }

  /** A time of day with hour below 24 and minute and second below 60 is in the window exactly on today's date. */
  lemma WindowIsToday(t: DateTime, today: Dates.Date)
    requires Dates.ValidDate(today) && t.hour < 24 && t.minute < 60 && t.second < 60
    ensures InWindow(t, today) <==> t.year == today.year && t.month == today.month && t.day == today.day
  {
  }

  /** A time `isoformat` can write. */
  type Stamp = t: DateTime | IsoWritable(t) witness DateTime(0, 0, 0, 0, 0, 0)

  /** What `main` does with one line of the bulletin. */
  datatype Outcome =
    | Skip                                                      // `continue`
    | Crash                                                     // `datetime(...)` raises ValueError
    | Accept(title: string, when: Stamp, place: Option<string>)

  /** The line, once stripped, matches `LINE_RE` and has a mass keyword in its title or after its time. */
  predicate HasMassKeyword(raw: string) {
    match LineGrammar.Recognize(Strip(raw, IsSpace))
    case None => false
    case Some(f) => Keywords.HasKeyword(TitlePlace.SplitTitlePlace(f.body).title) || Keywords.HasKeyword(f.body)
  }

  /**
   * One pass of the loop body: strip the line, skip it when it is empty or
   * does not match `LINE_RE`, and judge the groups of the match.
   */
  function Examine(raw: string, yh: int, today: Dates.Date): (r: Outcome)
    requires Dates.ValidDate(today)
    ensures Strip(raw, IsSpace) == [] ==> r.Skip?
    ensures LineGrammar.Recognize(Strip(raw, IsSpace)).None? ==> r.Skip?
    ensures r.Accept? ==> HasMassKeyword(raw)
    ensures r.Accept? ==> r.when.hour < 24 && r.when.minute < 60 && r.when.second == 0 && InWindow(r.when, today)
    ensures var line := Strip(raw, IsSpace);
            line != [] && LineGrammar.Recognize(line).Some? ==>
              r == ExamineMatch(LineGrammar.Recognize(line).value, yh, today)
  {
    var line := Strip(raw, IsSpace);
    if line == [] then Skip
    else match LineGrammar.Recognize(line)
      case None => Skip
      case Some(f) => ExamineMatch(f, yh, today)
  }

  /**
   * The rest of the loop body: parse the date, build the time, test the
   * window, split title and place, test for a mass keyword.
   */
  function ExamineMatch(f: LineGrammar.Fragments, yh: int, today: Dates.Date): (r: Outcome)
    requires Dates.ValidDate(today) && LineGrammar.GroupsWellFormed(f)
    ensures Dates.ParseDate(f.day, f.month, f.year, yh).None? ==> r.Skip?
    ensures r.Crash? <==> Dates.ParseDate(f.day, f.month, f.year, yh).Some?
                          && (DigitsValue(f.hour) >= 24 || DigitsValue(f.minute) >= 60)
    ensures r.Accept? ==>
              && Dates.ParseDate(f.day, f.month, f.year, yh) == Some(Dates.Date(r.when.year, r.when.month, r.when.day))
              && r.when.hour == DigitsValue(f.hour) < 24 && r.when.minute == DigitsValue(f.minute) < 60
              && r.when.second == 0 && InWindow(r.when, today)
    ensures r.Accept? ==>
              && TitlePlace.SplitTitlePlace(f.body) == TitlePlace.Split(r.title, r.place)
              && (Keywords.HasKeyword(r.title) || Keywords.HasKeyword(f.body))
    ensures match Dates.ParseDate(f.day, f.month, f.year, yh)
            case None => true
            case Some(d) =>
              DigitsValue(f.hour) < 24 && DigitsValue(f.minute) < 60
              && InWindow(DateTime(d.year, d.month, d.day, DigitsValue(f.hour), DigitsValue(f.minute), 0), today)
              && (Keywords.HasKeyword(TitlePlace.SplitTitlePlace(f.body).title) || Keywords.HasKeyword(f.body))
              ==> r.Accept?
  {
    match Dates.ParseDate(f.day, f.month, f.year, yh)
    case None => Skip
    case Some(d) =>
      var hh, mm := DigitsValue(f.hour), DigitsValue(f.minute);
      if hh >= 24 || mm >= 60 then Crash
      else
        var when := DateTime(d.year, d.month, d.day, hh, mm, 0);
        if !InWindow(when, today) then Skip
        else
          var split := TitlePlace.SplitTitlePlace(f.body);
          if !(Keywords.HasKeyword(split.title) || Keywords.HasKeyword(f.body)) then Skip
          else Accept(split.title, when, split.place)
  }

  /** The loop body for a given year hint and day, as a function of the line. */
  function Judge(yh: int, today: Dates.Date): string -> Outcome
    requires Dates.ValidDate(today)
  {
    raw => Examine(raw, yh, today)
  }

  /**
   * A body that begins with a venue (`Kirche Grenchen Orgelkonzert`) gets the
   * title "Messe", and that title passes the keyword test, so such a line is
   * taken for a mass whatever event it announces.
   */
  lemma VenueFirstIsMass(body: string)
    requires TitlePlace.IndicatorAt(body, 0)
    ensures TitlePlace.SplitTitlePlace(body).title == "Messe"
    ensures Keywords.HasKeyword(TitlePlace.SplitTitlePlace(body).title)
  {
    TitlePlace.IndicatorInitial(body, 0);
    TitlePlace.SplitAtFirstIndicator(body, 0);
    assert body[..0] == [];
    assert Keywords.KeywordMatch("Messe", 0, 5);
  }

  /** The record appended for an accepted line. */
  function EventOf(title: string, when: Stamp, place: Option<string>): (e: Event)
    ensures e.title != [] && e.kanton == "SO" && e.source == "kirchenblatt" && e.start == Iso(when)
    ensures e.title == (if title == [] then "Messe" else title) && e.location == PlaceTable.Normalized(place)
  {
    Event(if title == [] then "Messe" else title, Iso(when), PlaceTable.Normalized(place), "SO", "kirchenblatt")
  }

  /** The loop either runs to the end with its records, or an exception ends the script. */
  datatype Run = Completed(items: seq<Event>) | Aborted

  function Then(items: seq<Event>, r: Run): Run {
    match r
    case Aborted => Aborted
    case Completed(rest) => Completed(items + rest)
  }

  lemma ThenAssoc(a: seq<Event>, b: seq<Event>, r: Run)
    ensures Then(a, Then(b, r)) == Then(a + b, r)
  {
    if r.Completed? {
      assert a + (b + r.items) == (a + b) + r.items;
    }
  }

  /** The records of the lines, in line order; the first crashing line ends the run. */
  function Scan(lines: seq<string>, judge: string -> Outcome): (r: Run)
    ensures r.Completed? ==> |r.items| <= |lines|
    decreases |lines|
  {
    if lines == [] then Completed([])
    else match judge(lines[0])
      case Skip => Scan(lines[1..], judge)
      case Crash => Aborted
      case Accept(title, when, place) => Then([EventOf(title, when, place)], Scan(lines[1..], judge))
  }

  /** `main` from the downloaded documents to the sorted records. */
  function Collect(docs: seq<string>, currentYear: int, today: Dates.Date): Run
    requires Dates.ValidDate(today)
  {
    var text := Normalizer.BulletinText(docs);
    match Scan(SplitLines(text), Judge(YearHint.YearHint(text, currentYear), today))
    case Aborted => Aborted
    case Completed(items) => Completed(StableSort(items))
  }

  /** A skipped line (blank, not a schedule line, outside today, no keyword) adds nothing and changes nothing. */
  lemma {:induction false} SkippedLineIsInert(a: seq<string>, l: string, b: seq<string>, judge: string -> Outcome)
    requires judge(l).Skip?
    ensures Scan(a + [l] + b, judge) == Scan(a + b, judge)
    decreases |a|
  {
    if a == [] {
      assert a + [l] + b == [l] + b && ([l] + b)[1..] == b && a + b == b;
    } else {
      assert (a + [l] + b)[0] == a[0] && (a + [l] + b)[1..] == a[1..] + [l] + b;
      assert (a + b)[0] == a[0] && (a + b)[1..] == a[1..] + b;
      SkippedLineIsInert(a[1..], l, b, judge);
    }
  }

  /** The loop judged line k to be the record e. */
  predicate AcceptedAs(o: Outcome, e: Event) {
    o.Accept? && e == EventOf(o.title, o.when, o.place)
  }

  /** Every record comes from a line the loop accepted. */
  lemma {:induction false} ScanFromLines(lines: seq<string>, judge: string -> Outcome, e: Event)
    requires Scan(lines, judge).Completed? && e in Scan(lines, judge).items
    ensures exists k :: 0 <= k < |lines| && AcceptedAs(judge(lines[k]), e)
    decreases |lines|
  {
    var o := judge(lines[0]);
    if o.Accept? && e == EventOf(o.title, o.when, o.place) {
      assert AcceptedAs(judge(lines[0]), e);
    } else {
      var rest := Scan(lines[1..], judge);
      assert rest.Completed? && e in rest.items;
      ScanFromLines(lines[1..], judge, e);
      var k :| 0 <= k < |lines[1..]| && AcceptedAs(judge(lines[1..][k]), e);
      assert lines[1..][k] == lines[k + 1];
    }
  }

  /** Every line the loop accepts has its record among the records of a completed run. */
  lemma {:induction false} AcceptedLineRecorded(lines: seq<string>, judge: string -> Outcome, k: nat)
    requires Scan(lines, judge).Completed? && k < |lines| && judge(lines[k]).Accept?
    ensures var o := judge(lines[k]); EventOf(o.title, o.when, o.place) in Scan(lines, judge).items
    decreases |lines|
  {
    var o := judge(lines[k]);
    if k > 0 {
      assert lines[1..][k - 1] == lines[k];
      assert Scan(lines[1..], judge).Completed?;
      AcceptedLineRecorded(lines[1..], judge, k - 1);
    }
  }

  /** Some line makes the loop body raise. */
  predicate SomeLineCrashes(lines: seq<string>, judge: string -> Outcome) {
    exists k :: 0 <= k < |lines| && judge(lines[k]).Crash?
  }

  /** The run is aborted exactly when some line crashes. */
  lemma {:induction false} AbortedIffCrash(lines: seq<string>, judge: string -> Outcome)
    ensures Scan(lines, judge).Aborted? <==> SomeLineCrashes(lines, judge)
    decreases |lines|
  {
    if lines != [] {
      AbortedIffCrash(lines[1..], judge);
      if judge(lines[0]).Crash? {
        assert 0 <= 0 < |lines| && judge(lines[0]).Crash?;
      } else {
        if exists k :: 0 <= k < |lines| && judge(lines[k]).Crash? {
          var k :| 0 <= k < |lines| && judge(lines[k]).Crash?;
          assert k > 0 && lines[1..][k - 1] == lines[k];
        }
        if exists k :: 0 <= k < |lines[1..]| && judge(lines[1..][k]).Crash? {
          var k :| 0 <= k < |lines[1..]| && judge(lines[1..][k]).Crash?;
          assert lines[1..][k] == lines[k + 1];
        }
      }
    }
  }

  /**
   * What every written record satisfies: the title is not empty, kanton and
   * source are fixed, and the start is the ISO time of a moment in today's
   * window, that is, on today's date.
   */
  lemma RecordsOfToday(docs: seq<string>, currentYear: int, today: Dates.Date, e: Event)
    requires Dates.ValidDate(today) && Collect(docs, currentYear, today).Completed?
    requires e in Collect(docs, currentYear, today).items
    ensures e.title != [] && e.kanton == "SO" && e.source == "kirchenblatt"
    ensures exists t: Stamp :: e.start == Iso(t) && InWindow(t, today)
                               && t.year == today.year && t.month == today.month && t.day == today.day
  {
    var text := Normalizer.BulletinText(docs);
    var lines := SplitLines(text);
    var judge := Judge(YearHint.YearHint(text, currentYear), today);
    var items := Scan(lines, judge).items;
    StableSortPermutes(items);
    assert e in multiset(StableSort(items));
    ScanFromLines(lines, judge, e);
    var k :| 0 <= k < |lines| && AcceptedAs(judge(lines[k]), e);
    var o := judge(lines[k]);
    assert o == Examine(lines[k], YearHint.YearHint(text, currentYear), today);
    WindowIsToday(o.when, today);
  }

  /** Every written record comes from an accepted line with a mass keyword in its title or after its time. */
  lemma RecordsHaveKeyword(lines: seq<string>, yh: int, today: Dates.Date, e: Event)
    requires Dates.ValidDate(today) && Scan(lines, Judge(yh, today)).Completed?
    requires e in Scan(lines, Judge(yh, today)).items
    ensures exists k :: 0 <= k < |lines| && AcceptedAs(Judge(yh, today)(lines[k]), e) && HasMassKeyword(lines[k])
  {
    var judge := Judge(yh, today);
    ScanFromLines(lines, judge, e);
    var k :| 0 <= k < |lines| && AcceptedAs(judge(lines[k]), e);
    AcceptedHasKeyword(lines[k], yh, today);
    assert 0 <= k < |lines| && AcceptedAs(judge(lines[k]), e) && HasMassKeyword(lines[k]);
  }

  /** A line the loop accepts has a mass keyword. */
  lemma AcceptedHasKeyword(raw: string, yh: int, today: Dates.Date)
    requires Dates.ValidDate(today) && Judge(yh, today)(raw).Accept?
    ensures HasMassKeyword(raw)
  {
    assert Judge(yh, today)(raw) == Examine(raw, yh, today);
  }

  /** The written records are sorted by start, hence by time, and are exactly the records collected. */
  lemma CollectSorted(docs: seq<string>, currentYear: int, today: Dates.Date)
    requires Dates.ValidDate(today) && Collect(docs, currentYear, today).Completed?
    ensures Sorted(Collect(docs, currentYear, today).items)
    ensures var text := Normalizer.BulletinText(docs);
            multiset(Collect(docs, currentYear, today).items)
              == multiset(Scan(SplitLines(text), Judge(YearHint.YearHint(text, currentYear), today)).items)
  {
    var text := Normalizer.BulletinText(docs);
    var items := Scan(SplitLines(text), Judge(YearHint.YearHint(text, currentYear), today)).items;
    StableSortSorted(items);
    StableSortPermutes(items);
  }

  /** Every line of the bulletin that the loop accepts is written out as its record. */
  lemma AcceptedLineWritten(docs: seq<string>, currentYear: int, today: Dates.Date, k: nat)
    requires Dates.ValidDate(today) && Collect(docs, currentYear, today).Completed?
    requires var text := Normalizer.BulletinText(docs);
             k < |SplitLines(text)| && Judge(YearHint.YearHint(text, currentYear), today)(SplitLines(text)[k]).Accept?
    ensures var text := Normalizer.BulletinText(docs);
            var o := Judge(YearHint.YearHint(text, currentYear), today)(SplitLines(text)[k]);
            EventOf(o.title, o.when, o.place) in Collect(docs, currentYear, today).items
  {
    var text := Normalizer.BulletinText(docs);
    var lines := SplitLines(text);
    var judge := Judge(YearHint.YearHint(text, currentYear), today);
    var items := Scan(lines, judge).items;
    AcceptedLineRecorded(lines, judge, k);
    StableSortPermutes(items);
    var o := judge(lines[k]);
    assert EventOf(o.title, o.when, o.place) in multiset(StableSort(items));
  }

  /** The script ends without writing exactly when some line of the bulletin crashes. */
  lemma CollectAbortsIffCrash(docs: seq<string>, currentYear: int, today: Dates.Date)
    requires Dates.ValidDate(today)
    ensures var text := Normalizer.BulletinText(docs);
            var lines := SplitLines(text);
            Collect(docs, currentYear, today).Aborted? <==> SomeLineCrashes(lines, Judge(YearHint.YearHint(text, currentYear), today))
  {
    var text := Normalizer.BulletinText(docs);
    var lines := SplitLines(text);
    var judge := Judge(YearHint.YearHint(text, currentYear), today);
    assert Collect(docs, currentYear, today).Aborted? <==> Scan(lines, judge).Aborted?;
    AbortedIffCrash(lines, judge);
  }

  /**
   * The loop of `main`: each line is judged; a skipped line is passed over,
   * an accepted one has its place normalised and is appended as a record. A
   * line whose hour or minute is out of range makes `datetime` raise, which
   * ends the script.
   */
  method ScanLines(lines: seq<string>, judge: string -> Outcome) returns (r: Run)
    ensures r == Scan(lines, judge)
  {
    var items: seq<Event> := [];
    var i := 0;
    while i < |lines|
      invariant 0 <= i <= |lines|
      invariant Scan(lines, judge) == Then(items, Scan(lines[i..], judge))
      decreases |lines| - i
    {
      assert lines[i..][0] == lines[i] && lines[i..][1..] == lines[i + 1..];
      match judge(lines[i]) {
        case Skip =>
        case Crash =>
          return Aborted;
        case Accept(title, when, place) =>
          var location := PlaceTable.NormalizePlace(place);
          var e := Event(if title == [] then "Messe" else title, Iso(when), location, "SO", "kirchenblatt");
          ThenAssoc(items, [e], Scan(lines[i + 1..], judge));
          items := items + [e];
      }
      i := i + 1;
    }
    assert lines[i..] == [];
    assert items + [] == items;
    return Completed(items);
  }

  /** `main` without its input and output: text, year hint, lines, the loop, the sort. */
  method CollectToday(docs: seq<string>, currentYear: int, today: Dates.Date) returns (r: Run)
    requires Dates.ValidDate(today)
    ensures r == Collect(docs, currentYear, today)
  {
    var text := Normalizer.BulletinText(docs);
    var yh := YearHint.YearHint(text, currentYear);
    var lines := SplitLines(text);
    r := ScanLines(lines, Judge(yh, today));
    if r.Completed? {
      var sorted := SortByStart(r.items);
      r := Completed(sorted);
    }
  }
}
