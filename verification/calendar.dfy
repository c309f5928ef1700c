/**
 Dates as `datetime.strptime(text, "%d-%m-%Y")` reads them: the text is
 matched against the directive patterns of Python's `_strptime` module, and
 the fields must then name a real day of the proleptic Gregorian calendar
 (years 1 to 9999), or the call raises.
 */
module Calendar {

  import opened Wrappers
  import opened Text
  import opened Decimal

  datatype Date = Date(year: int, month: int, day: int)

  const MinYear := 1
  const MaxYear := 9999

  predicate IsLeapYear(y: int) {
    y % 4 == 0 && (y % 100 != 0 || y % 400 == 0)
  }

  function DaysInMonth(y: int, m: int): (n: int)
    requires 1 <= m <= 12
    ensures 28 <= n <= 31
  {
    if m == 2 then (if IsLeapYear(y) then 29 else 28)
    else if m == 4 || m == 6 || m == 9 || m == 11 then 30
    else 31
  }

  /** A day `datetime.date` accepts. */
  predicate IsRealDate(d: Date) {
    && MinYear <= d.year <= MaxYear
    && 1 <= d.month <= 12
    && 1 <= d.day <= DaysInMonth(d.year, d.month)
  }

  /** `a >= b` on dates: year, then month, then day. */
  predicate OnOrAfter(a: Date, b: Date) {
    || a.year > b.year
    || (a.year == b.year && a.month > b.month)
    || (a.year == b.year && a.month == b.month && a.day >= b.day)
  }

  /** Splits `s` at its first `sep`, if it has one. */
  function SplitAtFirst(s: string, sep: char): (r: Option<(string, string)>)
    ensures r.Some? ==> s == r.value.0 + [sep] + r.value.1 && sep !in r.value.0
    ensures r.None? ==> sep !in s
  {
    if |s| == 0 then None
    else if s[0] == sep then Some(([], s[1..]))
    else
      match SplitAtFirst(s[1..], sep)
      case None => None
      case Some((a, b)) => Some(([s[0]] + a, b))
  }

  /** The first separator of `a + [sep] + b` is the one after `a` when `a` has none. */
  lemma {:induction false} SplitAtFirstOfJoin(a: string, b: string, sep: char)
    requires sep !in a
    ensures SplitAtFirst(a + [sep] + b, sep) == Some((a, b))
    decreases |a|
  {
    var s := a + [sep] + b;
    if |a| > 0 {
      assert s[1..] == a[1..] + [sep] + b;
      SplitAtFirstOfJoin(a[1..], b, sep);
      assert [s[0]] + a[1..] == a;
    } else {
      assert s[1..] == b;
    }
  }

  predicate IsNonZeroDigit(c: char) {
    '1' <= c <= '9'
  }

  /**
   The `%d` directive, `3[01]|[12]\d|0[1-9]|[1-9]| [1-9]`, read with `int()`
   (which ignores the leading space of the last alternative).
   */
  function DayField(t: string): Option<int> {
    if |t| == 1 && IsNonZeroDigit(t[0]) then Some(DigitValue(t[0]))
    else if |t| == 2 && t[0] == ' ' && IsNonZeroDigit(t[1]) then Some(DigitValue(t[1]))
    else if |t| == 2 && t[0] == '3' && (t[1] == '0' || t[1] == '1') then Some(ValueOf(t))
    else if |t| == 2 && (t[0] == '1' || t[0] == '2') && IsDigit(t[1]) then Some(ValueOf(t))
    else if |t| == 2 && t[0] == '0' && IsNonZeroDigit(t[1]) then Some(ValueOf(t))
    else None
  }

  /** The `%m` directive, `1[0-2]|0[1-9]|[1-9]`. */
  function MonthField(t: string): Option<int> {
    if |t| == 1 && IsNonZeroDigit(t[0]) then Some(DigitValue(t[0]))
    else if |t| == 2 && t[0] == '1' && '0' <= t[1] <= '2' then Some(ValueOf(t))
    else if |t| == 2 && t[0] == '0' && IsNonZeroDigit(t[1]) then Some(ValueOf(t))
    else None
  }

  /** The `%Y` directive, `\d\d\d\d`. */
  function YearField(t: string): Option<int> {
    if |t| == 4 && AllDigits(t) then Some(ValueOf(t)) else None
  }

  /**
   Matching the whole text against `%d-%m-%Y`. No directive pattern can
   match a '-', so the day is the text before the first '-', the month the
   text between the first and the second, and the year all the rest (text
   left over after the year makes `strptime` raise).
   */
  function MatchFormat(s: string): Option<Date> {
    match SplitAtFirst(s, '-')
    case None => None
    case Some((dayText, rest)) =>
      match SplitAtFirst(rest, '-')
      case None => None
      case Some((monthText, yearText)) =>
        match (DayField(dayText), MonthField(monthText), YearField(yearText))
        case (Some(d), Some(m), Some(y)) => Some(Date(y, m, d))
        case _ => None
  }

  /** `datetime.strptime(s, "%d-%m-%Y").date()`, with `None` where the call raises. */
  function ParseDate(s: string): (r: Option<Date>)
    ensures r.Some? ==> IsRealDate(r.value)
  {
    match MatchFormat(s)
    case Some(d) => if IsRealDate(d) then Some(d) else None
    case None => None
  }

  /** The canonical `DD-MM-YYYY` spelling of a date. */
  function FormatDate(d: Date): string
    requires IsRealDate(d)
  {
    FixedWidth(d.day, 2) + "-" + FixedWidth(d.month, 2) + "-" + FixedWidth(d.year, 4)
  }

  /** Every text `%d` accepts for day `v`: two digits, or for 1-9 also one digit or a space and one digit. */
  function DaySpellings(v: int): set<string>
    requires 1 <= v <= 31
  {
    if v <= 9 then {FixedWidth(v, 2), FixedWidth(v, 1), " " + FixedWidth(v, 1)}
    else {FixedWidth(v, 2)}
  }

  /** Every text `%m` accepts for month `v`: two digits, or for 1-9 also one digit. */
  function MonthSpellings(v: int): set<string>
    requires 1 <= v <= 12
  {
    if v <= 9 then {FixedWidth(v, 2), FixedWidth(v, 1)} else {FixedWidth(v, 2)}
  }

  /** `s` is one of the spellings of the real date `d`. */
  ghost predicate Spells(s: string, d: Date)
    requires IsRealDate(d)
  {
    exists ds, ms :: ds in DaySpellings(d.day) && ms in MonthSpellings(d.month)
      && s == ds + "-" + ms + "-" + FixedWidth(d.year, 4)
  }

  /** The day field reads exactly the spellings of days 1..31. */
  lemma DayFieldIff(t: string, v: int)
    requires 1 <= v <= 31
    ensures DayField(t) == Some(v) <==> t in DaySpellings(v)
  {
    if DayField(t) == Some(v) {
      DayFieldReadsSpelling(t, v);
    }
    if t in DaySpellings(v) {
      DaySpellingIsRead(t, v);
    }
  }

  lemma DayFieldReadsSpelling(t: string, v: int)
    requires 1 <= v <= 31
    requires DayField(t) == Some(v)
    ensures t in DaySpellings(v)
  {
    if |t| == 1 {
      OneDigitText(t);
    } else if t[0] == ' ' {
      OneDigitText(t[1..]);
      assert t == " " + t[1..];
    } else {
      TwoDigitText(t);
    }
  }

  lemma DaySpellingIsRead(t: string, v: int)
    requires 1 <= v <= 31
    requires t in DaySpellings(v)
    ensures DayField(t) == Some(v)
  {
    if t == FixedWidth(v, 2) {
      TwoDigits(v);
      ValueOfFixedWidth(v, 2);
    } else if t == FixedWidth(v, 1) {
      ValueOfFixedWidth(v, 1);
    } else {
      assert t == " " + FixedWidth(v, 1);
      ValueOfFixedWidth(v, 1);
    }
  }

  lemma TwoDigits(v: nat)
    requires v < 100
    ensures FixedWidth(v, 2) == [DigitChar(v / 10), DigitChar(v % 10)]
  {
  }

  /** The month field reads exactly the spellings of months 1..12. */
  lemma MonthFieldIff(t: string, v: int)
    requires 1 <= v <= 12
    ensures MonthField(t) == Some(v) <==> t in MonthSpellings(v)
  {
    if MonthField(t) == Some(v) {
      MonthFieldReadsSpelling(t, v);
    }
    if t in MonthSpellings(v) {
      MonthSpellingIsRead(t, v);
    }
  }

  lemma MonthFieldReadsSpelling(t: string, v: int)
    requires 1 <= v <= 12
    requires MonthField(t) == Some(v)
    ensures t in MonthSpellings(v)
  {
    if |t| == 1 {
      OneDigitText(t);
    } else {
      TwoDigitText(t);
    }
  }

  lemma MonthSpellingIsRead(t: string, v: int)
    requires 1 <= v <= 12
    requires t in MonthSpellings(v)
    ensures MonthField(t) == Some(v)
  {
    if t == FixedWidth(v, 2) {
      TwoDigits(v);
      ValueOfFixedWidth(v, 2);
    } else {
      ValueOfFixedWidth(v, 1);
    }
  }

  /** The year field reads exactly the four-digit spellings of years 1..9999. */
  lemma YearFieldIff(t: string, y: int)
    requires MinYear <= y <= MaxYear
    ensures YearField(t) == Some(y) <==> t == FixedWidth(y, 4)
  {
    if YearField(t) == Some(y) {
      FixedWidthOfValue(t);
    }
    if t == FixedWidth(y, 4) {
      ValueOfFixedWidth(y, 4);
    }
  }

  /** A field the directives accept never holds the separator. */
  lemma NoDashInField(t: string)
    requires DayField(t).Some? || MonthField(t).Some? || AllDigits(t)
    ensures '-' !in t
  {
  }

  /**
   The format is read back exactly: `ParseDate` yields `d` for precisely the
   spellings of real dates `d`, and for nothing else.
   */
  lemma ParseDateIff(s: string, d: Date)
    ensures ParseDate(s) == Some(d) <==> IsRealDate(d) && Spells(s, d)
  {
    if ParseDate(s) == Some(d) {
      ParseDateSpells(s, d);
    }
    if IsRealDate(d) && Spells(s, d) {
      SpellingParses(s, d);
    }
  }

  lemma ParseDateSpells(s: string, d: Date)
    requires ParseDate(s) == Some(d)
    ensures IsRealDate(d) && Spells(s, d)
  {
    var (dt, rest) := SplitAtFirst(s, '-').value;
    var (mt, yt) := SplitAtFirst(rest, '-').value;
    DayFieldIff(dt, d.day);
    MonthFieldIff(mt, d.month);
    YearFieldIff(yt, d.year);
    assert s == dt + "-" + mt + "-" + FixedWidth(d.year, 4);
  }

  lemma SpellingParses(s: string, d: Date)
    requires IsRealDate(d) && Spells(s, d)
    ensures ParseDate(s) == Some(d)
  {
    var ds, ms :| ds in DaySpellings(d.day) && ms in MonthSpellings(d.month)
      && s == ds + "-" + ms + "-" + FixedWidth(d.year, 4);
    var yt := FixedWidth(d.year, 4);
    DayFieldIff(ds, d.day);
    MonthFieldIff(ms, d.month);
    YearFieldIff(yt, d.year);
    NoDashInField(ds);
    NoDashInField(ms);
    assert s == ds + ['-'] + (ms + ['-'] + yt);
    SplitAtFirstOfJoin(ds, ms + ['-'] + yt, '-');
    SplitAtFirstOfJoin(ms, yt, '-');
  }

  /** The canonical spelling of a real date reads back as that date. */
  lemma ParseFormatDate(d: Date)
    requires IsRealDate(d)
    ensures ParseDate(FormatDate(d)) == Some(d)
  {
    assert FixedWidth(d.day, 2) in DaySpellings(d.day);
    assert FixedWidth(d.month, 2) in MonthSpellings(d.month);
    SpellingParses(FormatDate(d), d);
  }

  /** Matching a text with exactly the three dash-separated fields reads each field. */
  lemma MatchFormatFields(dayText: string, monthText: string, yearText: string)
    requires '-' !in dayText && '-' !in monthText
    ensures MatchFormat(dayText + "-" + monthText + "-" + yearText) ==
      if DayField(dayText).Some? && MonthField(monthText).Some? && YearField(yearText).Some?
      then Some(Date(YearField(yearText).value, MonthField(monthText).value, DayField(dayText).value))
      else None
  {
    var s := dayText + "-" + monthText + "-" + yearText;
    assert s == dayText + ['-'] + (monthText + ['-'] + yearText);
    SplitAtFirstOfJoin(dayText, monthText + ['-'] + yearText, '-');
    SplitAtFirstOfJoin(monthText, yearText, '-');
  }

}
