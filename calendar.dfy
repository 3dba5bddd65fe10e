/**
 * Calendar dates as the analytics use them.  The date key of a commit is the
 * part of its ISO 8601 author timestamp before the first `'T'`, which for the
 * timestamps the GitHub API returns is an RFC 3339 `full-date` (`YYYY-MM-DD`).
 * `new Date(key)` reads such a key as UTC midnight, so its time value is a
 * whole number of days since 1970-01-01; `DayNumber` is that number.
 */
module Calendar {
  import opened Wrappers

  /** `timestamp.split('T')[0]`: everything before the first `'T'`, or all of it. */
  function DateKey(timestamp: string): string
  {
    if timestamp == [] || timestamp[0] == 'T' then []
    else [timestamp[0]] + DateKey(timestamp[1..])
  }

  /**
   * The date key is the longest prefix of the timestamp without a `'T'`: it
   * stops at the first `'T'`, or runs to the end when there is none.
   */
  lemma {:induction false} DateKeyIsPrefixBeforeT(timestamp: string)
    ensures DateKey(timestamp) <= timestamp
    ensures 'T' !in DateKey(timestamp)
    ensures |DateKey(timestamp)| < |timestamp| ==> timestamp[|DateKey(timestamp)|] == 'T'
  {
    if timestamp != [] && timestamp[0] != 'T' {
      DateKeyIsPrefixBeforeT(timestamp[1..]);
    }
  }

  /** The key of `date + "T" + time` is `date` whenever `date` holds no `'T'`. */
  lemma {:induction false} DateKeyOfTimestamp(date: string, time: string)
    requires 'T' !in date
    ensures DateKey(date + "T" + time) == date
  {
    var timestamp := date + "T" + time;
    var key := DateKey(timestamp);
    DateKeyIsPrefixBeforeT(timestamp);
    assert forall i :: 0 <= i < |date| ==> timestamp[i] == date[i] != 'T';
    assert timestamp[|date|] == 'T';
    assert |key| == |date|;
    assert key == timestamp[..|key|] == date;
  }

  datatype Date = Date(year: int, month: int, day: int)

  /** The Gregorian rule. */
  predicate IsLeapYear(y: int)
  {
    y % 4 == 0 && (y % 100 != 0 || y % 400 == 0)
  }

  function DaysInMonth(y: int, m: int): int
    requires 1 <= m <= 12
  {
    if m == 2 then (if IsLeapYear(y) then 29 else 28)
    else if m == 4 || m == 6 || m == 9 || m == 11 then 30
    else 31
  }

  function DaysInYear(y: int): int
  {
    if IsLeapYear(y) then 366 else 365
  }

  predicate IsValid(d: Date)
  {
    1 <= d.month <= 12 && 1 <= d.day <= DaysInMonth(d.year, d.month)
  }

  /** Days of year `y` before the first of month `m`. */
  function DaysBeforeMonth(y: int, m: int): int
    requires 1 <= m <= 12
  {
    var common :=
      if m == 1 then 0 else if m == 2 then 31 else if m == 3 then 59
      else if m == 4 then 90 else if m == 5 then 120 else if m == 6 then 151
      else if m == 7 then 181 else if m == 8 then 212 else if m == 9 then 243
      else if m == 10 then 273 else if m == 11 then 304 else 334;
    if m > 2 && IsLeapYear(y) then common + 1 else common
  }

  /** The number of leap years before year `y`, counted from an arbitrary origin. */
  function LeapYearsBefore(y: int): int
  {
    (y - 1) / 4 - (y - 1) / 100 + (y - 1) / 400
  }

  /** Days from 1970-01-01 to the first of January of year `y`. */
  function DaysBeforeYear(y: int): int
  {
    365 * (y - 1970) + LeapYearsBefore(y) - LeapYearsBefore(1970)
  }

  /** Days since 1970-01-01: `new Date(key).getTime() / 86400000` for the key of `d`. */
  function DayNumber(d: Date): int
    requires 1 <= d.month <= 12
  {
    DaysBeforeYear(d.year) + DaysBeforeMonth(d.year, d.month) + d.day - 1
  }

  /** The calendar day after `d`. */
  function NextDay(d: Date): Date
    requires IsValid(d)
  {
    if d.day < DaysInMonth(d.year, d.month) then Date(d.year, d.month, d.day + 1)
    else if d.month < 12 then Date(d.year, d.month + 1, 1)
    else Date(d.year + 1, 1, 1)
  }

  lemma QuotientStep4(y: int)
    ensures y / 4 - (y - 1) / 4 == if y % 4 == 0 then 1 else 0
  {
  }

  lemma QuotientStep100(y: int)
    ensures y / 100 - (y - 1) / 100 == if y % 100 == 0 then 1 else 0
  {
  }

  lemma QuotientStep400(y: int)
    ensures y / 400 - (y - 1) / 400 == if y % 400 == 0 then 1 else 0
  {
  }

  lemma CenturyDivisibility(y: int)
    ensures y % 400 == 0 ==> y % 100 == 0
    ensures y % 100 == 0 ==> y % 4 == 0
  {
  }

  /** Moving to the next year adds one leap year exactly when the year left behind is a leap year. */
  lemma LeapYearStep(y: int)
    ensures LeapYearsBefore(y + 1) == LeapYearsBefore(y) + (if IsLeapYear(y) then 1 else 0)
  {
    QuotientStep4(y);
    QuotientStep100(y);
    QuotientStep400(y);
    CenturyDivisibility(y);
  }

  lemma YearStep(y: int)
    ensures DaysBeforeYear(y + 1) == DaysBeforeYear(y) + DaysInYear(y)
  {
    LeapYearStep(y);
  }

  /** Consecutive calendar dates are exactly one day number apart. */
  lemma NextDayIsOneDayLater(d: Date)
    requires IsValid(d)
    ensures IsValid(NextDay(d))
    ensures DayNumber(NextDay(d)) == DayNumber(d) + 1
  {
    if d.day == DaysInMonth(d.year, d.month) && d.month == 12 {
      YearStep(d.year);
    }
  }

  /** `a` is an earlier calendar date than `b`. */
  predicate Before(a: Date, b: Date)
  {
    || a.year < b.year
    || (a.year == b.year && a.month < b.month)
    || (a.year == b.year && a.month == b.month && a.day < b.day)
  }

  lemma DaysBeforeMonthGrows(y: int, m: int, m': int)
    requires 1 <= m < m' <= 12
    ensures DaysBeforeMonth(y, m) + DaysInMonth(y, m) <= DaysBeforeMonth(y, m')
  {
  }

  lemma DayOfYearFits(d: Date)
    requires IsValid(d)
    ensures DaysBeforeMonth(d.year, d.month) + d.day <= DaysInYear(d.year)
  {
  }

  lemma {:induction false} DaysBeforeYearGrows(y: int, y': int)
    requires y < y'
    ensures DaysBeforeYear(y) + DaysInYear(y) <= DaysBeforeYear(y')
    decreases y' - y
  {
    YearStep(y);
    if y + 1 < y' {
      DaysBeforeYearGrows(y + 1, y');
    }
  }

  /** Day numbers follow the calendar order. */
  lemma DayNumberIsMonotone(a: Date, b: Date)
    requires IsValid(a) && IsValid(b) && Before(a, b)
    ensures DayNumber(a) < DayNumber(b)
  {
    if a.year < b.year {
      DayOfYearFits(a);
      DaysBeforeYearGrows(a.year, b.year);
    } else if a.month < b.month {
      DaysBeforeMonthGrows(a.year, a.month, b.month);
    }
  }

  /** Distinct valid dates have distinct day numbers. */
  lemma DayNumberIsInjective(a: Date, b: Date)
    requires IsValid(a) && IsValid(b) && DayNumber(a) == DayNumber(b)
    ensures a == b
  {
    if Before(a, b) {
      DayNumberIsMonotone(a, b);
    } else if Before(b, a) {
      DayNumberIsMonotone(b, a);
    }
  }

  /**
   * Two valid dates are one day number apart exactly when the second is the
   * calendar day after the first, which is what the streak loop relies on
   * when it tests `diffDays === 1`.
   */
  lemma ConsecutiveDates(a: Date, b: Date)
    requires IsValid(a) && IsValid(b)
    ensures DayNumber(b) == DayNumber(a) + 1 <==> b == NextDay(a)
  {
    NextDayIsOneDayLater(a);
    if DayNumber(b) == DayNumber(a) + 1 {
      DayNumberIsInjective(b, NextDay(a));
    }
  }

  predicate IsDigit(c: char)
  {
    '0' <= c <= '9'
  }

  predicate AllDigits(s: string)
  {
    forall i :: 0 <= i < |s| ==> IsDigit(s[i])
  }

  function DigitChar(n: int): char
    requires 0 <= n < 10
  {
    (n + '0' as int) as char
  }

  function DigitValue(c: char): int
    requires IsDigit(c)
  {
    c as int - '0' as int
  }

  /** `n` in two decimal digits, with a leading zero. */
  function TwoDigits(n: int): string
    requires 0 <= n < 100
  {
    [DigitChar(n / 10), DigitChar(n % 10)]
  }

  /** `n` in four decimal digits, with leading zeros. */
  function FourDigits(n: int): string
    requires 0 <= n < 10000
  {
    TwoDigits(n / 100) + TwoDigits(n % 100)
  }

  function ValueOfTwo(s: string): int
    requires |s| == 2 && AllDigits(s)
  {
    10 * DigitValue(s[0]) + DigitValue(s[1])
  }

  function ValueOfFour(s: string): int
    requires |s| == 4 && AllDigits(s)
  {
    100 * ValueOfTwo(s[..2]) + ValueOfTwo(s[2..])
  }

  /** The RFC 3339 `full-date` of `d`: `YYYY-MM-DD`. */
  function FormatDate(d: Date): (s: string)
    requires 0 <= d.year < 10000 && 1 <= d.month <= 12 && 1 <= d.day <= 31
    ensures |s| == 10 && 'T' !in s
  {
    FourDigits(d.year) + "-" + TwoDigits(d.month) + "-" + TwoDigits(d.day)
  }

  /**
   * Reads an RFC 3339 `full-date` (`YYYY-MM-DD`), the form of the date keys
   * of GitHub author timestamps; `new Date(key)` reads it as UTC midnight of
   * that day.  Every other key is `None` here: the other date-only forms
   * (`YYYY`, `YYYY-MM`, expanded years) are UTC midnights too but are not
   * modelled.
   */
  function ParseFullDate(s: string): (r: Option<Date>)
    ensures r.Some? ==> IsValid(r.value) && 0 <= r.value.year < 10000 && FormatDate(r.value) == s
  {
    if |s| == 10 && s[4] == '-' && s[7] == '-'
       && AllDigits(s[..4]) && AllDigits(s[5..7]) && AllDigits(s[8..])
    then
      var d := Date(ValueOfFour(s[..4]), ValueOfTwo(s[5..7]), ValueOfTwo(s[8..]));
      if IsValid(d) then
        TwoDigitsRoundTrip(s[5..7]);
        TwoDigitsRoundTrip(s[8..]);
        FourDigitsRoundTrip(s[..4]);
        assert s == s[..4] + "-" + s[5..7] + "-" + s[8..];
        Some(d)
      else None
    else None
  }

  predicate IsFullDate(s: string)
  {
    ParseFullDate(s).Some?
  }

  lemma TwoDigitsRoundTrip(s: string)
    requires |s| == 2 && AllDigits(s)
    ensures 0 <= ValueOfTwo(s) < 100 && TwoDigits(ValueOfTwo(s)) == s
  {
  }

  lemma HundredsAndRest(hi: int, lo: int)
    requires 0 <= hi < 100 && 0 <= lo < 100
    ensures (100 * hi + lo) / 100 == hi && (100 * hi + lo) % 100 == lo
  {
  }

  lemma FourDigitsRoundTrip(s: string)
    requires |s| == 4 && AllDigits(s)
    ensures 0 <= ValueOfFour(s) < 10000 && FourDigits(ValueOfFour(s)) == s
  {
    var hi, lo := ValueOfTwo(s[..2]), ValueOfTwo(s[2..]);
    TwoDigitsRoundTrip(s[..2]);
    TwoDigitsRoundTrip(s[2..]);
    HundredsAndRest(hi, lo);
    assert FourDigits(ValueOfFour(s)) == TwoDigits(hi) + TwoDigits(lo);
    assert s == s[..2] + s[2..];
  }

  lemma TwoDigitsValue(n: int)
    requires 0 <= n < 100
    ensures AllDigits(TwoDigits(n)) && ValueOfTwo(TwoDigits(n)) == n
  {
  }

  lemma FourDigitsValue(n: int)
    requires 0 <= n < 10000
    ensures AllDigits(FourDigits(n)) && ValueOfFour(FourDigits(n)) == n
  {
    var s := FourDigits(n);
    TwoDigitsValue(n / 100);
    TwoDigitsValue(n % 100);
    assert s[..2] == TwoDigits(n / 100) && s[2..] == TwoDigits(n % 100);
  }

  /** Formatting a valid date and reading it back gives the date again. */
  lemma ParseFormatRoundTrip(d: Date)
    requires IsValid(d) && 0 <= d.year < 10000
    ensures ParseFullDate(FormatDate(d)) == Some(d)
  {
    var s := FormatDate(d);
    assert s[..4] == FourDigits(d.year);
    assert s[5..7] == TwoDigits(d.month);
    assert s[8..] == TwoDigits(d.day);
    FourDigitsValue(d.year);
    TwoDigitsValue(d.month);
    TwoDigitsValue(d.day);
  }

  /**
   * String order by character, a proper prefix first.  It agrees with
   * JavaScript's `<` (UTF-16 code-unit order) on the ASCII `YYYY-MM-DD` keys
   * it is applied to.
   */
  predicate LexLess(a: string, b: string)
  {
    if a == [] then b != []
    else b != [] && (a[0] < b[0] || (a[0] == b[0] && LexLess(a[1..], b[1..])))
  }

  lemma {:induction false} LexLessConcat(p: string, q: string, p': string, q': string)
    requires |p| == |p'|
    ensures LexLess(p + q, p' + q') <==> LexLess(p, p') || (p == p' && LexLess(q, q'))
  {
    if p != [] {
      assert (p + q)[1..] == p[1..] + q;
      assert (p' + q')[1..] == p'[1..] + q';
      LexLessConcat(p[1..], q, p'[1..], q');
      assert p == p' <==> p[0] == p'[0] && p[1..] == p'[1..];
    } else {
      assert p + q == q && p' + q' == q';
    }
  }

  lemma TwoDigitsOrder(m: int, n: int)
    requires 0 <= m < 100 && 0 <= n < 100
    ensures LexLess(TwoDigits(m), TwoDigits(n)) <==> m < n
    ensures TwoDigits(m) == TwoDigits(n) <==> m == n
  {
    var a, b := TwoDigits(m), TwoDigits(n);
    assert a[1..] == [DigitChar(m % 10)] && b[1..] == [DigitChar(n % 10)];
    assert LexLess(a[1..], b[1..]) <==> m % 10 < n % 10 by {
      assert a[1..][1..] == [] && b[1..][1..] == [];
    }
    assert LexLess(a, b) <==> m / 10 < n / 10 || (m / 10 == n / 10 && m % 10 < n % 10);
    assert m == 10 * (m / 10) + m % 10 && n == 10 * (n / 10) + n % 10;
  }

  lemma FourDigitsOrder(m: int, n: int)
    requires 0 <= m < 10000 && 0 <= n < 10000
    ensures LexLess(FourDigits(m), FourDigits(n)) <==> m < n
    ensures FourDigits(m) == FourDigits(n) <==> m == n
  {
    LexLessConcat(TwoDigits(m / 100), TwoDigits(m % 100), TwoDigits(n / 100), TwoDigits(n % 100));
    TwoDigitsOrder(m / 100, n / 100);
    TwoDigitsOrder(m % 100, n % 100);
    assert m == 100 * (m / 100) + m % 100 && n == 100 * (n / 100) + n % 100;
    if FourDigits(m) == FourDigits(n) {
      assert TwoDigits(m / 100) == FourDigits(m)[..2] == FourDigits(n)[..2] == TwoDigits(n / 100);
      assert TwoDigits(m % 100) == FourDigits(m)[2..] == FourDigits(n)[2..] == TwoDigits(n % 100);
    }
  }

  /** On full-dates, comparing the strings compares the dates. */
  lemma FormatDateOrder(a: Date, b: Date)
    requires IsValid(a) && 0 <= a.year < 10000 && IsValid(b) && 0 <= b.year < 10000
    ensures LexLess(FormatDate(a), FormatDate(b)) <==> Before(a, b)
  {
    var ya, ma, da := FourDigits(a.year), TwoDigits(a.month), TwoDigits(a.day);
    var yb, mb, db := FourDigits(b.year), TwoDigits(b.month), TwoDigits(b.day);
    FourDigitsOrder(a.year, b.year);
    TwoDigitsOrder(a.month, b.month);
    TwoDigitsOrder(a.day, b.day);
    assert FormatDate(a) == (ya + "-") + ((ma + "-") + da);
    assert FormatDate(b) == (yb + "-") + ((mb + "-") + db);
    LexLessConcat(ya + "-", (ma + "-") + da, yb + "-", (mb + "-") + db);
    LexLessConcat(ya, "-", yb, "-");
    LexLessConcat(ma + "-", da, mb + "-", db);
    LexLessConcat(ma, "-", mb, "-");
    assert !LexLess("-", "-");
    assert ya + "-" == yb + "-" <==> ya == yb by {
      assert (ya + "-")[..4] == ya && (yb + "-")[..4] == yb;
    }
    assert ma + "-" == mb + "-" <==> ma == mb by {
      assert (ma + "-")[..2] == ma && (mb + "-")[..2] == mb;
    }
  }

  /**
   * For keys in `YYYY-MM-DD` form, ordering by time value (`getTime`) and
   * ordering the strings themselves agree.
   */
  lemma FullDateOrderIsDayOrder(s: string, t: string)
    requires IsFullDate(s) && IsFullDate(t)
    ensures DayNumber(ParseFullDate(s).value) < DayNumber(ParseFullDate(t).value) <==> LexLess(s, t)
  {
    var a, b := ParseFullDate(s).value, ParseFullDate(t).value;
    FormatDateOrder(a, b);
    if Before(a, b) {
      DayNumberIsMonotone(a, b);
    } else if Before(b, a) {
      DayNumberIsMonotone(b, a);
    }
  }
}
