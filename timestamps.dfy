/**
 * Calendar dates and times of day as the application uses them: the
 * attendance file stores `datetime.now().strftime("%Y-%m-%d %H:%M:%S")`,
 * the administrator's screen parses it back (`pd.to_datetime`) and compares
 * timestamps with date-picker bounds.  Comparisons are made on a count of
 * seconds (proleptic Gregorian calendar, day 0 = 0001-01-01), which is what
 * pandas' naive timestamps compare.
 */
module Timestamps {
  import opened Wrappers

  datatype Date = Date(year: int, month: int, day: int)
  datatype DateTime = DateTime(date: Date, hour: int, minute: int, second: int)

  const SECONDS_PER_DAY: int := 86400

  predicate IsLeapYear(y: int)
  {
    y % 4 == 0 && (y % 100 != 0 || y % 400 == 0)
  }

  function DaysInMonth(y: int, m: int): int
  {
    if m == 2 then (if IsLeapYear(y) then 29 else 28)
    else if m == 4 || m == 6 || m == 9 || m == 11 then 30
    else 31
  }

  /** Dates `datetime.date` can hold. */
  predicate ValidDate(d: Date)
  {
    1 <= d.year <= 9999 && 1 <= d.month <= 12 && 1 <= d.day <= DaysInMonth(d.year, d.month)
  }

  predicate ValidDateTime(t: DateTime)
  {
    ValidDate(t.date) && 0 <= t.hour < 24 && 0 <= t.minute < 60 && 0 <= t.second < 60
  }

  /** Chronological order of dates: year, then month, then day. */
  predicate DateBefore(a: Date, b: Date)
  {
    a.year < b.year || (a.year == b.year && (a.month < b.month || (a.month == b.month && a.day < b.day)))
  }

  // ----- day numbers -----

  function YearLength(y: int): int
  {
    if IsLeapYear(y) then 366 else 365
  }

  function DaysBeforeYear(y: int): int
    requires y >= 1
  {
    365 * (y - 1) + (y - 1) / 4 - (y - 1) / 100 + (y - 1) / 400
  }

  function DaysBeforeMonth(y: int, m: int): int
  {
    var common :=
      if m <= 1 then 0 else if m == 2 then 31 else if m == 3 then 59 else if m == 4 then 90
      else if m == 5 then 120 else if m == 6 then 151 else if m == 7 then 181
      else if m == 8 then 212 else if m == 9 then 243 else if m == 10 then 273
      else if m == 11 then 304 else 334;
    if m > 2 && IsLeapYear(y) then common + 1 else common
  }

  /** Days from 0001-01-01 to `d`. */
  function DayNumber(d: Date): int
    requires ValidDate(d)
  {
    DaysBeforeYear(d.year) + DaysBeforeMonth(d.year, d.month) + d.day - 1
  }

  /** `pd.Timestamp(date)`: midnight at the start of `d`, in seconds. */
  function StartOfDay(d: Date): int
    requires ValidDate(d)
  {
    DayNumber(d) * SECONDS_PER_DAY
  }

  /** The timestamp `t` in seconds. */
  function SecondsOf(t: DateTime): (r: int)
    requires ValidDateTime(t)
    ensures StartOfDay(t.date) <= r < StartOfDay(t.date) + SECONDS_PER_DAY
  {
    StartOfDay(t.date) + t.hour * 3600 + t.minute * 60 + t.second
  }

  lemma DivStep(n: int, k: int)
    requires n >= 1 && (k == 4 || k == 100 || k == 400)
    ensures n / k - (n - 1) / k == if n % k == 0 then 1 else 0
  {
    if k == 4 {
    } else if k == 100 {
    } else {
    }
  }

  lemma DivisibleChain(y: int)
    ensures y % 400 == 0 ==> y % 100 == 0
    ensures y % 100 == 0 ==> y % 4 == 0
  {
    if y % 400 == 0 {
      var m := 4 * (y / 400);
      assert y == 100 * m;
      HundredsMod(m);
    }
    if y % 100 == 0 {
      var m := 25 * (y / 100);
      assert y == 4 * m;
      FoursMod(m);
    }
  }

  lemma HundredsMod(m: int)
    ensures (100 * m) % 100 == 0
  {
  }

  lemma FoursMod(m: int)
    ensures (4 * m) % 4 == 0
  {
  }

  lemma DaysBeforeNextYear(y: int)
    requires y >= 1
    ensures DaysBeforeYear(y + 1) == DaysBeforeYear(y) + YearLength(y)
  {
    var a, b, c := y / 4 - (y - 1) / 4, y / 100 - (y - 1) / 100, y / 400 - (y - 1) / 400;
    DivStep(y, 4);
    DivStep(y, 100);
    DivStep(y, 400);
    DivisibleChain(y);
    assert DaysBeforeYear(y + 1) - DaysBeforeYear(y) == 365 + a - b + c;
  }

  lemma {:induction false} DaysBeforeYearGrows(a: int, b: int)
    requires 1 <= a <= b
    ensures DaysBeforeYear(a) + 365 * (b - a) <= DaysBeforeYear(b)
    decreases b - a
  {
    if a < b {
      DaysBeforeNextYear(a);
      DaysBeforeYearGrows(a + 1, b);
    }
  }

  lemma DaysBeforeMonthGrows(y: int, a: int, b: int)
    requires 1 <= a < b <= 12
    ensures DaysBeforeMonth(y, a) + DaysInMonth(y, a) <= DaysBeforeMonth(y, b)
  {
  }

  lemma DayOfYearBound(d: Date)
    requires ValidDate(d)
    ensures DaysBeforeMonth(d.year, d.month) + d.day - 1 < YearLength(d.year)
  {
  }

  /** Day numbers follow the calendar: an earlier date has a smaller number, and only the same date has the same number. */
  lemma DayNumberOrder(a: Date, b: Date)
    requires ValidDate(a) && ValidDate(b)
    ensures DateBefore(a, b) <==> DayNumber(a) < DayNumber(b)
    ensures a == b <==> DayNumber(a) == DayNumber(b)
  {
    if a.year < b.year {
      DayNumberBefore(a, b);
    } else if b.year < a.year {
      DayNumberBefore(b, a);
    } else if a.month < b.month {
      DaysBeforeMonthGrows(a.year, a.month, b.month);
    } else if b.month < a.month {
      DaysBeforeMonthGrows(a.year, b.month, a.month);
    }
  }

  lemma DayNumberBefore(a: Date, b: Date)
    requires ValidDate(a) && ValidDate(b) && a.year < b.year
    ensures DayNumber(a) < DayNumber(b)
  {
    DayOfYearBound(a);
    DaysBeforeNextYear(a.year);
    DaysBeforeYearGrows(a.year + 1, b.year);
  }

  /**
   * Inclusive date range on timestamps, as the administrator's filter computes
   * it: from midnight of `start` to one second before midnight of the day
   * after `end`.
   */
  predicate InDateRange(seconds: int, start: Date, end: Date)
    requires ValidDate(start) && ValidDate(end)
  {
    StartOfDay(start) <= seconds <= StartOfDay(end) + SECONDS_PER_DAY - 1
  }

  /** The range test on seconds is exactly "the timestamp's calendar date lies between `start` and `end`". */
  lemma InDateRangeIffBetween(t: DateTime, start: Date, end: Date)
    requires ValidDateTime(t) && ValidDate(start) && ValidDate(end)
    ensures InDateRange(SecondsOf(t), start, end) <==> !DateBefore(t.date, start) && !DateBefore(end, t.date)
  {
    DayNumberOrder(t.date, start);
    DayNumberOrder(end, t.date);
    DayNumberOrder(start, t.date);
    DayNumberOrder(t.date, end);
  }

  // ----- the "%Y-%m-%d %H:%M:%S" text form -----

  function DigitChar(v: int): char
    requires 0 <= v < 10
  {
    ('0' as int + v) as char
  }

  predicate IsDigit(c: char)
  {
    '0' <= c <= '9'
  }

  predicate AllDigits(s: string)
  {
    forall i :: 0 <= i < |s| ==> IsDigit(s[i])
  }

  function DigitValue(c: char): int
    requires IsDigit(c)
  {
    c as int - '0' as int
  }

  function Pow10(w: nat): (r: nat)
    ensures r >= 1
  {
    if w == 0 then 1 else 10 * Pow10(w - 1)
  }

  /** `n` written in exactly `w` decimal digits, zero padded (`%02d`, `%04d`). */
  function Digits(n: nat, w: nat): (r: string)
    ensures |r| == w && AllDigits(r)
  {
    if w == 0 then [] else Digits(n / 10, w - 1) + [DigitChar(n % 10)]
  }

  /** The number a string of decimal digits denotes. */
  function DigitsValue(s: string): (v: nat)
    requires AllDigits(s)
    ensures v < Pow10(|s|)
  {
    if s == [] then 0 else DigitsValue(s[..|s| - 1]) * 10 + DigitValue(s[|s| - 1])
  }

  lemma {:induction false} DigitsValueOfDigits(n: nat, w: nat)
    requires n < Pow10(w)
    ensures DigitsValue(Digits(n, w)) == n
  {
    if w > 0 {
      DigitsValueOfDigits(n / 10, w - 1);
      assert Digits(n, w)[..w - 1] == Digits(n / 10, w - 1);
    }
  }

  lemma {:induction false} DigitsOfDigitsValue(s: string)
    requires AllDigits(s)
    ensures Digits(DigitsValue(s), |s|) == s
  {
    if s != [] {
      var p := s[..|s| - 1];
      assert AllDigits(p) by {
        forall i | 0 <= i < |p|
          ensures IsDigit(p[i])
        {
          assert p[i] == s[i];
        }
      }
      DigitsOfDigitsValue(p);
      var v := DigitsValue(s);
      assert v / 10 == DigitsValue(p) && v % 10 == DigitValue(s[|s| - 1]);
      assert s == p + [s[|s| - 1]];
    }
  }

  /** `t.strftime("%Y-%m-%d %H:%M:%S")`. */
  function FormatStamp(t: DateTime): (s: string)
    requires ValidDateTime(t)
    ensures |s| == 19
  {
    DateText(t.date) + " " + TimeText(t.hour, t.minute, t.second)
  }

  /** The `%Y-%m-%d` half of a stamp. */
  function DateText(d: Date): (s: string)
    requires ValidDate(d)
    ensures |s| == 10
  {
    Digits(d.year, 4) + "-" + Digits(d.month, 2) + "-" + Digits(d.day, 2)
  }

  /** The `%H:%M:%S` half of a stamp. */
  function TimeText(hour: int, minute: int, second: int): (s: string)
    requires 0 <= hour < 24 && 0 <= minute < 60 && 0 <= second < 60
    ensures |s| == 8
  {
    Digits(hour, 2) + ":" + Digits(minute, 2) + ":" + Digits(second, 2)
  }

  /** `a-b-c` with digit fields of widths 4, 2 and 2, or nothing. */
  function ParseDate(s: string): (r: Option<Date>)
  {
    if |s| == 10 && AllDigits(s[0..4]) && s[4] == '-' && AllDigits(s[5..7]) && s[7] == '-' && AllDigits(s[8..10])
    then Some(Date(DigitsValue(s[0..4]), DigitsValue(s[5..7]), DigitsValue(s[8..10])))
    else None
  }

  /** `a:b:c` with digit fields of width 2, as hour, minute and second, or nothing. */
  function ParseTime(s: string): (r: Option<(int, int, int)>)
  {
    if |s| == 8 && AllDigits(s[0..2]) && s[2] == ':' && AllDigits(s[3..5]) && s[5] == ':' && AllDigits(s[6..8])
    then Some((DigitsValue(s[0..2]), DigitsValue(s[3..5]), DigitsValue(s[6..8])))
    else None
  }

  /**
   * `pd.to_datetime` applied to a stamp of the form the attendance file holds:
   * the date and time it denotes, or nothing when the text is not such a stamp
   * or names no real date and time.
   */
  function ParseStamp(s: string): (r: Option<DateTime>)
    ensures r.Some? ==> ValidDateTime(r.value)
  {
    if |s| != 19 || s[10] != ' ' then None
    else match (ParseDate(s[..10]), ParseTime(s[11..]))
      case (Some(d), Some((h, m, sec))) =>
        var t := DateTime(d, h, m, sec);
        if ValidDateTime(t) then Some(t) else None
      case _ => None
  }

  /** The three fields of `a x b y c` sit where their lengths put them. */
  lemma Fields3(a: string, x: char, b: string, y: char, c: string)
    ensures var s := a + [x] + b + [y] + c;
            && s[0..|a|] == a && s[|a|] == x && s[|a| + 1..|a| + 1 + |b|] == b
            && s[|a| + 1 + |b|] == y && s[|a| + 2 + |b|..] == c
  {
  }

  lemma ParseFormatDate(d: Date)
    requires ValidDate(d)
    ensures ParseDate(DateText(d)) == Some(d)
  {
    var y, m, dd := Digits(d.year, 4), Digits(d.month, 2), Digits(d.day, 2);
    var s := DateText(d);
    Fields3(y, '-', m, '-', dd);
    assert s == y + ['-'] + m + ['-'] + dd;
    assert s[0..4] == y && s[5..7] == m && s[8..10] == dd;
    assert AllDigits(s[0..4]) && AllDigits(s[5..7]) && AllDigits(s[8..10]);
    DigitsValueOfDigits(d.year, 4);
    DigitsValueOfDigits(d.month, 2);
    DigitsValueOfDigits(d.day, 2);
    assert DigitsValue(s[0..4]) == d.year && DigitsValue(s[5..7]) == d.month && DigitsValue(s[8..10]) == d.day;
    assert |s| == 10 && s[4] == '-' && s[7] == '-';
    assert ParseDate(s) == Some(Date(DigitsValue(s[0..4]), DigitsValue(s[5..7]), DigitsValue(s[8..10])));
  }

  lemma ParseFormatTime(hour: int, minute: int, second: int)
    requires 0 <= hour < 24 && 0 <= minute < 60 && 0 <= second < 60
    ensures ParseTime(TimeText(hour, minute, second)) == Some((hour, minute, second))
  {
    var h, m, sec := Digits(hour, 2), Digits(minute, 2), Digits(second, 2);
    var s := TimeText(hour, minute, second);
    Fields3(h, ':', m, ':', sec);
    assert s == h + [':'] + m + [':'] + sec;
    assert s[0..2] == h && s[3..5] == m && s[6..8] == sec;
    assert AllDigits(s[0..2]) && AllDigits(s[3..5]) && AllDigits(s[6..8]);
    DigitsValueOfDigits(hour, 2);
    DigitsValueOfDigits(minute, 2);
    DigitsValueOfDigits(second, 2);
    assert DigitsValue(s[0..2]) == hour && DigitsValue(s[3..5]) == minute && DigitsValue(s[6..8]) == second;
    assert |s| == 8 && s[2] == ':' && s[5] == ':';
    assert ParseTime(s) == Some((DigitsValue(s[0..2]), DigitsValue(s[3..5]), DigitsValue(s[6..8])));
  }

  /** Reading back a written stamp gives the moment that was written. */
  lemma ParseFormatStamp(t: DateTime)
    requires ValidDateTime(t)
    ensures ParseStamp(FormatStamp(t)) == Some(t)
  {
    var s := FormatStamp(t);
    var dt, tt := DateText(t.date), TimeText(t.hour, t.minute, t.second);
    assert s[..10] == dt && s[11..] == tt;
    ParseFormatDate(t.date);
    ParseFormatTime(t.hour, t.minute, t.second);
  }

  /** A text is its three fields with the two separators between them. */
  lemma Joined(s: string, i: nat, j: nat)
    requires i < j < |s|
    ensures s == s[0..i] + [s[i]] + s[i + 1..j] + [s[j]] + s[j + 1..]
  {
    assert s == s[0..i] + s[i..];
    assert s[i..] == [s[i]] + s[i + 1..];
    assert s[i + 1..] == s[i + 1..j] + s[j..];
    assert s[j..] == [s[j]] + s[j + 1..];
  }

  lemma FormatParseDate(s: string)
    requires ParseDate(s).Some? && ValidDate(ParseDate(s).value)
    ensures DateText(ParseDate(s).value) == s
  {
    var d := ParseDate(s).value;
    DigitsOfDigitsValue(s[0..4]);
    DigitsOfDigitsValue(s[5..7]);
    DigitsOfDigitsValue(s[8..10]);
    Joined(s, 4, 7);
  }

  lemma FormatParseTime(s: string)
    requires ParseTime(s).Some?
    requires var (h, m, sec) := ParseTime(s).value; 0 <= h < 24 && 0 <= m < 60 && 0 <= sec < 60
    ensures var (h, m, sec) := ParseTime(s).value; TimeText(h, m, sec) == s
  {
    DigitsOfDigitsValue(s[0..2]);
    DigitsOfDigitsValue(s[3..5]);
    DigitsOfDigitsValue(s[6..8]);
    Joined(s, 2, 5);
  }

  /** A stamp that reads back at all is exactly the text the formatter writes for it. */
  lemma FormatParseStamp(s: string)
    requires ParseStamp(s).Some?
    ensures FormatStamp(ParseStamp(s).value) == s
  {
    FormatParseDate(s[..10]);
    FormatParseTime(s[11..]);
    assert s == s[..10] + " " + s[11..];
  }
}
