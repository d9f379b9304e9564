/**
 * `_parse_date`: the date of a schedule line, from its day, its month (a
 * number or a German month name) and its year (the line's own, or the hint).
 * The script hands a string to `dateparser` with German as the language; that
 * library is replaced here by a table of German month names and a check that
 * the day exists in the Gregorian calendar.
 */
module Dates {
  import opened Wrappers
  import opened Chars
  import opened LineGrammar

  /** A calendar date, as the `year`, `month` and `day` of the parsed datetime. */
  datatype Date = Date(year: int, month: int, day: int)

  predicate IsLeapYear(y: int) {
    y % 4 == 0 && (y % 100 != 0 || y % 400 == 0)
  }

  function DaysInMonth(y: int, m: int): (n: int)
    requires 1 <= m <= 12
    ensures 28 <= n <= 31
    ensures n == 29 <==> m == 2 && IsLeapYear(y)
    ensures n == 28 <==> m == 2 && !IsLeapYear(y)
    ensures n == 30 <==> m in {4, 6, 9, 11}
    ensures n == 31 <==> m in {1, 3, 5, 7, 8, 10, 12}
  {
    if m == 2 then (if IsLeapYear(y) then 29 else 28)
    else if m == 4 || m == 6 || m == 9 || m == 11 then 30
    else 31
  }

  /** A day that exists, in the years Python's `datetime` supports. */
  predicate ValidDate(d: Date) {
    1 <= d.year <= 9999 && 1 <= d.month <= 12 && 1 <= d.day <= DaysInMonth(d.year, d.month)
  }

  /** The number of entries of the month-name table. */
  const MonthNameCount: nat := 27

  /**
   * Entry k of the German month-name table: a lower-case name and its month.
   * Full names, the usual abbreviations and the Austrian forms of January and
   * February.
   */
  function MonthEntry(k: nat): (e: (string, int))
    requires k < MonthNameCount
    ensures 1 <= e.1 <= 12
  {
    match k
    case 0 => ("januar", 1)
    case 1 => ("jan", 1)
    case 2 => ("jänner", 1)
    case 3 => ("jän", 1)
    case 4 => ("februar", 2)
    case 5 => ("feb", 2)
    case 6 => ("feber", 2)
    case 7 => ("märz", 3)
    case 8 => ("mär", 3)
    case 9 => ("april", 4)
    case 10 => ("apr", 4)
    case 11 => ("mai", 5)
    case 12 => ("juni", 6)
    case 13 => ("jun", 6)
    case 14 => ("juli", 7)
    case 15 => ("jul", 7)
    case 16 => ("august", 8)
    case 17 => ("aug", 8)
    case 18 => ("september", 9)
    case 19 => ("sept", 9)
    case 20 => ("sep", 9)
    case 21 => ("oktober", 10)
    case 22 => ("okt", 10)
    case 23 => ("november", 11)
    case 24 => ("nov", 11)
    case 25 => ("dezember", 12)
    case _ => ("dez", 12)
  }

  /** Lower-cases the letters a month name can hold: ASCII letters and the umlauts. */
  function FoldLetter(c: char): char {
    if c == 'Ä' then 'ä' else if c == 'Ö' then 'ö' else if c == 'Ü' then 'ü' else AsciiLower(c)
  }

  function Fold(s: string): (r: string)
    ensures |r| == |s| && forall k :: 0 <= k < |s| ==> r[k] == FoldLetter(s[k])
  {
    if s == [] then [] else [FoldLetter(s[0])] + Fold(s[1..])
  }

  /** The month of the first table entry from entry k on whose name is `name`. */
  function LookupFrom(name: string, k: nat): (r: Option<int>)
    requires k <= MonthNameCount
    ensures r.Some? ==> 1 <= r.value <= 12 && exists j :: k <= j < MonthNameCount && MonthEntry(j) == (name, r.value)
    ensures r.None? ==> forall j :: k <= j < MonthNameCount ==> MonthEntry(j).0 != name
    decreases MonthNameCount - k
  {
    if k == MonthNameCount then None
    else if MonthEntry(k).0 == name then Some(MonthEntry(k).1)
    else LookupFrom(name, k + 1)
  }

  /** The month a month name stands for, compared without regard to case. */
  function MonthOfName(name: string): (r: Option<int>)
    ensures r.Some? ==> 1 <= r.value <= 12 && exists j :: 0 <= j < MonthNameCount && MonthEntry(j) == (Fold(name), r.value)
    ensures r.None? ==> forall j :: 0 <= j < MonthNameCount ==> MonthEntry(j).0 != Fold(name)
  {
    LookupFrom(Fold(name), 0)
  }

  /** The year `y or yh` names: the line's own year when it has one. */
  function YearOf(y: Option<string>, yh: int): (r: int)
    requires y.Some? ==> AllDigits(y.value)
  {
    match y
    case Some(ys) => DigitsValue(ys)
    case None => yh
  }

  /** The month `mon_name` or `mon` names; a month name takes precedence. */
  function MonthOf(month: MonthPart): (r: Option<int>)
    requires month.Numeric? ==> AllDigits(month.digits)
  {
    match month
    case Named(n) => MonthOfName(n)
    case Numeric(ds) => Some(DigitsValue(ds))
  }

  /**
   * `_parse_date(d, mon, mon_name, y, yh)`: the date, or None when the month
   * name is unknown or the day does not exist.
   */
  function ParseDate(d: string, month: MonthPart, y: Option<string>, yh: int): (r: Option<Date>)
    requires AllDigits(d) && (month.Numeric? ==> AllDigits(month.digits)) && (y.Some? ==> AllDigits(y.value))
    ensures r.Some? ==> ValidDate(r.value)
    ensures r.Some? ==> r.value.year == YearOf(y, yh) && r.value.day == DigitsValue(d)
                        && Some(r.value.month) == MonthOf(month)
    ensures r.None? ==> MonthOf(month).None? || !ValidDate(Date(YearOf(y, yh), MonthOf(month).value, DigitsValue(d)))
  {
    match MonthOf(month)
    case None => None
    case Some(m) =>
      var date := Date(YearOf(y, yh), m, DigitsValue(d));
      if ValidDate(date) then Some(date) else None
  }

  /** Writing a valid date as `dd.mm.yyyy` groups and parsing it gives the date back, whatever the hint. */
  lemma ParseNumericRoundTrip(date: Date, yh: int)
    requires ValidDate(date)
    ensures ParseDate(Pad(date.day, 2), Numeric(Pad(date.month, 2)), Some(Pad(date.year, 4)), yh) == Some(date)
  {
    PadValue(date.day, 2);
    PadValue(date.month, 2);
    PadValue(date.year, 4);
  }
}
