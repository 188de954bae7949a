/** Broken-down civil date-time in the proleptic Gregorian calendar, as
    Python's `datetime` holds it: shifting by whole hours (`dt +
    timedelta(hours=h)`), the day of the week (`weekday()`, Monday = 0) and the
    "YYYY-MM-DD-dow-HH-MM-SS" file-name stamp that both renaming scripts
    build. */
module Civil {
  import opened Results
  import opened Digits

  /** `datetime.MINYEAR` and `datetime.MAXYEAR`. */
  const MIN_YEAR := 1
  const MAX_YEAR := 9999

  /** Indexed by `weekday()`, Monday first. */
  const DAYS_OF_WEEK: seq<string> := ["mon", "tue", "wed", "thu", "fri", "sat", "sun"]

  datatype Date = Date(year: int, month: int, day: int)

  datatype DateTime = DateTime(date: Date, hour: int, minute: int, second: int)

  predicate IsLeap(y: int) {
    y % 4 == 0 && (y % 100 != 0 || y % 400 == 0)
  }

  function DaysInMonth(y: int, m: int): (n: int)
    requires 1 <= m <= 12
    ensures 28 <= n <= 31
  {
    if m == 2 then (if IsLeap(y) then 29 else 28)
    else if m == 4 || m == 6 || m == 9 || m == 11 then 30
    else 31
  }

  /** A calendar date of any year (the year bound is checked separately). */
  predicate ValidDate(d: Date) {
    1 <= d.month <= 12 && 1 <= d.day <= DaysInMonth(d.year, d.month)
  }

  /** What a `datetime` can hold. */
  predicate Valid(t: DateTime) {
    && ValidDate(t.date) && MIN_YEAR <= t.date.year <= MAX_YEAR
    && 0 <= t.hour < 24 && 0 <= t.minute < 60 && 0 <= t.second < 60
  }

  function NextDay(d: Date): (r: Date)
    requires ValidDate(d)
    ensures ValidDate(r)
  {
    if d.day < DaysInMonth(d.year, d.month) then Date(d.year, d.month, d.day + 1)
    else if d.month < 12 then Date(d.year, d.month + 1, 1)
    else Date(d.year + 1, 1, 1)
  }

  function PrevDay(d: Date): (r: Date)
    requires ValidDate(d)
    ensures ValidDate(r)
  {
    if d.day > 1 then Date(d.year, d.month, d.day - 1)
    else if d.month > 1 then Date(d.year, d.month - 1, DaysInMonth(d.year, d.month - 1))
    else Date(d.year - 1, 12, 31)
  }

  lemma {:induction false} PrevNext(d: Date)
    requires ValidDate(d)
    ensures PrevDay(NextDay(d)) == d && NextDay(PrevDay(d)) == d
  {
  }

  /** The date `n` days after `d` (before it when `n` is negative). */
  function AddDays(d: Date, n: int): (r: Date)
    requires ValidDate(d)
    ensures ValidDate(r)
    decreases if n < 0 then -n else n
  {
    if n == 0 then d
    else if n > 0 then NextDay(AddDays(d, n - 1))
    else PrevDay(AddDays(d, n + 1))
  }

  /** Moving `a` days and then `b` days is moving `a + b` days. */
  lemma {:induction false} AddDaysAdd(d: Date, a: int, b: int)
    requires ValidDate(d)
    ensures AddDays(AddDays(d, a), b) == AddDays(d, a + b)
    decreases if b < 0 then -b else b
  {
    if b > 0 {
      AddDaysAdd(d, a, b - 1);
      if a + b <= 0 {
        PrevNext(AddDays(d, a + b));
      }
    } else if b < 0 {
      AddDaysAdd(d, a, b + 1);
      if a + b >= 0 {
        PrevNext(AddDays(d, a + b));
      }
    }
  }

  /** Days from 0001-01-01 to the first day of year `y`. */
  function DaysBeforeYear(y: int): int {
    var p := y - 1;
    365 * p + p / 4 - p / 100 + p / 400
  }

  function DaysBeforeMonth(y: int, m: int): int
    requires 1 <= m <= 12
  {
    [0, 31, 59, 90, 120, 151, 181, 212, 243, 273, 304, 334][m - 1]
      + (if m > 2 && IsLeap(y) then 1 else 0)
  }

  /** Days since 0001-01-01 (Python's `toordinal() - 1`). */
  function DayNumber(d: Date): int
    requires ValidDate(d)
  {
    DaysBeforeYear(d.year) + DaysBeforeMonth(d.year, d.month) + d.day - 1
  }

  /** `date.weekday()`: 0001-01-01 was a Monday. */
  function Weekday(d: Date): (w: int)
    requires ValidDate(d)
    ensures 0 <= w < 7
  {
    DayNumber(d) % 7
  }

  /** Floor division by a constant steps up by one exactly at its multiples. */
  lemma {:induction false} DivStep4(p: int)
    ensures (p + 1) / 4 - p / 4 == if (p + 1) % 4 == 0 then 1 else 0
  {
  }

  lemma {:induction false} DivStep100(p: int)
    ensures (p + 1) / 100 - p / 100 == if (p + 1) % 100 == 0 then 1 else 0
  {
  }

  lemma {:induction false} DivStep400(p: int)
    ensures (p + 1) / 400 - p / 400 == if (p + 1) % 400 == 0 then 1 else 0
  {
  }

  lemma {:induction false} MultipleNesting(y: int)
    ensures y % 400 == 0 ==> y % 100 == 0
    ensures y % 100 == 0 ==> y % 4 == 0
  {
    if y % 400 == 0 {
      assert y == 400 * (y / 400);
    }
    if y % 100 == 0 {
      assert y == 100 * (y / 100);
    }
  }

  lemma {:induction false} YearLength(y: int)
    ensures DaysBeforeYear(y + 1) - DaysBeforeYear(y) == if IsLeap(y) then 366 else 365
  {
    var p := y - 1;
    var s4 := (y / 4 - p / 4);
    var s100 := (y / 100 - p / 100);
    var s400 := (y / 400 - p / 400);
    DivStep4(p);
    DivStep100(p);
    DivStep400(p);
    MultipleNesting(y);
    assert DaysBeforeYear(y + 1) - DaysBeforeYear(y) == 365 + s4 - s100 + s400;
  }

  /** The next day is one day later. */
  lemma {:induction false} DayNumberNext(d: Date)
    requires ValidDate(d)
    ensures DayNumber(NextDay(d)) == DayNumber(d) + 1
  {
    if d.day == DaysInMonth(d.year, d.month) && d.month == 12 {
      YearLength(d.year);
    }
  }

  /** Moving `n` days moves the day number by exactly `n`. */
  lemma {:induction false} DayNumberAddDays(d: Date, n: int)
    requires ValidDate(d)
    ensures DayNumber(AddDays(d, n)) == DayNumber(d) + n
    decreases if n < 0 then -n else n
  {
    if n > 0 {
      DayNumberAddDays(d, n - 1);
      DayNumberNext(AddDays(d, n - 1));
    } else if n < 0 {
      DayNumberAddDays(d, n + 1);
      var e := AddDays(d, n + 1);
      PrevNext(e);
      DayNumberNext(PrevDay(e));
    }
  }

  /** `t + timedelta(hours=h)`; `None` is the `OverflowError` Python raises
      when the result leaves the years 1..9999. */
  function ShiftHours(t: DateTime, h: int): (r: Option<DateTime>)
    requires Valid(t)
    ensures h == 0 ==> r == Some(t)
    ensures r.Some? ==> Valid(r.value)
    ensures r.Some? ==> r.value.minute == t.minute && r.value.second == t.second
    ensures r.Some? ==> (r.value.hour - t.hour - h) % 24 == 0
  {
    var total := t.hour + h;
    var d := AddDays(t.date, total / 24);
    if MIN_YEAR <= d.year <= MAX_YEAR then
      Some(DateTime(d, total % 24, t.minute, t.second))
    else None
  }

  /** Shifting by `h` hours moves the date by the number of midnights crossed,
      and the weekday with it. */
  lemma {:induction false} ShiftWeekday(t: DateTime, h: int)
    requires Valid(t) && ShiftHours(t, h).Some?
    ensures var days := (t.hour + h) / 24;
      var u := ShiftHours(t, h).value;
      DayNumber(u.date) == DayNumber(t.date) + days &&
      Weekday(u.date) == (Weekday(t.date) + days) % 7
  {
    var days := (t.hour + h) / 24;
    var u := ShiftHours(t, h).value;
    assert u.date == AddDays(t.date, days);
    DayNumberAddDays(t.date, days);
    ModAdd(DayNumber(t.date), days);
  }

  lemma {:induction false} ModAdd(a: int, n: int)
    ensures (a + n) % 7 == (a % 7 + n) % 7
  {
    var q := a / 7;
    assert a + n == 7 * q + (a % 7 + n);
  }

  /** Shifting back by the same number of hours restores the original time. */
  lemma {:induction false} ShiftRoundTrip(t: DateTime, h: int)
    requires Valid(t) && ShiftHours(t, h).Some?
    ensures ShiftHours(ShiftHours(t, h).value, -h) == Some(t)
  {
    var total := t.hour + h;
    var q := total / 24;
    var u := ShiftHours(t, h).value;
    assert u.hour == total - 24 * q;
    var total' := u.hour - h;
    assert total' == t.hour + 24 * (-q);
    assert total' / 24 == -q && total' % 24 == t.hour;
    AddDaysAdd(t.date, q, -q);
  }

  /** The stamp "Y-MM-DD-dow-HH-MM-SS": the year in plain decimal, the other
      numbers with two digits, and the three-letter day of the week. */
  function Stamp(t: DateTime): string
    requires Valid(t)
  {
    IntToString(t.date.year)
      + StampTail(Pad2(t.date.month), Pad2(t.date.day), DAYS_OF_WEEK[Weekday(t.date)],
                  Pad2(t.hour), Pad2(t.minute), Pad2(t.second))
  }

  /** The fixed-width part of a stamp after the year. */
  function StampTail(mo: string, d: string, w: string, h: string, mi: string, se: string): string {
    "-" + mo + "-" + d + "-" + w + "-" + h + "-" + mi + "-" + se
  }

  lemma {:induction false} StampTailFields(mo: string, d: string, w: string, h: string, mi: string, se: string)
    requires |mo| == |d| == |h| == |mi| == |se| == 2 && |w| == 3
    ensures var f := StampTail(mo, d, w, h, mi, se);
      |f| == 19 && f[0] == f[3] == f[6] == f[10] == f[13] == f[16] == '-' &&
      f[1..3] == mo && f[4..6] == d && f[7..10] == w &&
      f[11..13] == h && f[14..16] == mi && f[17..19] == se
  {
    var a := "-" + mo + "-" + d + "-";
    var b := w + "-" + h + "-" + mi + "-" + se;
    var f := StampTail(mo, d, w, h, mi, se);
    assert f == a + b;
    assert f[..7] == a && f[7..] == b;
    assert a[1..3] == mo && a[4..6] == d;
    assert b[..3] == w && b[4..6] == h && b[7..9] == mi && b[10..12] == se;
  }

  /** The fields a stamp shows, read back from its text. */
  datatype StampFields = StampFields(year: int, month: int, day: int, dow: string,
                                     hour: int, minute: int, second: int)

  /** The shape of every stamp: decimal year digits, then '-' and 18 more
      characters. */
  predicate IsStampShaped(s: string) {
    |s| >= 20 && AllDigits(s[..|s| - 19]) && s[|s| - 19] == '-'
  }

  /** Reads a stamp back: `None` when the text does not have its shape. */
  function ParseStamp(s: string): (r: Option<StampFields>)
    ensures r.Some? ==> IsStampShaped(s)
  {
    if !IsStampShaped(s) then None
    else
      var n := |s| - 19;
      var f := s[n..];
      if f[3] != '-' || f[6] != '-' || f[10] != '-' || f[13] != '-' || f[16] != '-' then None
      else if !AllDigits(f[1..3]) || !AllDigits(f[4..6]) || !AllDigits(f[11..13])
              || !AllDigits(f[14..16]) || !AllDigits(f[17..19]) then None
      else
        Some(StampFields(DigitsValue(s[..n]), DigitsValue(f[1..3]), DigitsValue(f[4..6]), f[7..10],
                         DigitsValue(f[11..13]), DigitsValue(f[14..16]), DigitsValue(f[17..19])))
  }

  lemma {:induction false} StampLength(t: DateTime)
    requires Valid(t)
    ensures |Stamp(t)| == |IntToString(t.date.year)| + 19
  {
  }

  /** Every stamp reads back to the fields it was made from. */
  lemma {:induction false} StampRoundTrip(t: DateTime)
    requires Valid(t)
    ensures ParseStamp(Stamp(t)) ==
      Some(StampFields(t.date.year, t.date.month, t.date.day, DAYS_OF_WEEK[Weekday(t.date)],
                       t.hour, t.minute, t.second))
  {
    var y := IntToString(t.date.year);
    var f := StampTail(Pad2(t.date.month), Pad2(t.date.day), DAYS_OF_WEEK[Weekday(t.date)],
                       Pad2(t.hour), Pad2(t.minute), Pad2(t.second));
    StampTailFields(Pad2(t.date.month), Pad2(t.date.day), DAYS_OF_WEEK[Weekday(t.date)],
                    Pad2(t.hour), Pad2(t.minute), Pad2(t.second));
    ParseYearAndTail(y, f);
    NatToStringRoundTrip(t.date.year);
    Pad2RoundTrip(t.date.month);
    Pad2RoundTrip(t.date.day);
    Pad2RoundTrip(t.hour);
    Pad2RoundTrip(t.minute);
    Pad2RoundTrip(t.second);
  }

  lemma {:induction false} ParseYearAndTail(y: string, f: string)
    requires y != [] && AllDigits(y) && |f| == 19 && f[0] == '-'
    ensures IsStampShaped(y + f)
    ensures (y + f)[..|y|] == y && (y + f)[|y|..] == f
  {
    var s := y + f;
    assert s[..|s| - 19] == y;
    assert s[|y|..] == f;
  }

  /** Two stamp-shaped texts that start two equal strings are equal: the
      year's digits end at the first '-', which fixes the stamp's length. */
  lemma {:induction false} StampPrefixUnique(a: string, x: string, b: string, y: string)
    requires IsStampShaped(a) && IsStampShaped(b)
    requires a + x == b + y
    ensures a == b && x == y
  {
    var ya, yb := |a| - 19, |b| - 19;
    assert (a + x)[ya] == '-' && (b + y)[yb] == '-';
    assert a == (a + x)[..|a|];
    assert b == (b + y)[..|b|];
  }

  lemma {:induction false} StampShaped(t: DateTime)
    requires Valid(t)
    ensures IsStampShaped(Stamp(t))
  {
    var f := StampTail(Pad2(t.date.month), Pad2(t.date.day), DAYS_OF_WEEK[Weekday(t.date)],
                       Pad2(t.hour), Pad2(t.minute), Pad2(t.second));
    StampTailFields(Pad2(t.date.month), Pad2(t.date.day), DAYS_OF_WEEK[Weekday(t.date)],
                    Pad2(t.hour), Pad2(t.minute), Pad2(t.second));
    ParseYearAndTail(IntToString(t.date.year), f);
  }

  /** A stamp holds neither '.' nor '/': only digits, '-' and the lower-case
      day of the week. */
  lemma {:induction false} StampPlain(t: DateTime)
    requires Valid(t)
    ensures '.' !in Stamp(t) && '/' !in Stamp(t)
  {
    NoSeparatorInDigits(IntToString(t.date.year));
    NoSeparatorInDigits(Pad2(t.date.month));
    NoSeparatorInDigits(Pad2(t.date.day));
    NoSeparatorInDigits(Pad2(t.hour));
    NoSeparatorInDigits(Pad2(t.minute));
    NoSeparatorInDigits(Pad2(t.second));
    var w := DAYS_OF_WEEK[Weekday(t.date)];
    assert '.' !in w && '/' !in w;
  }

  lemma {:induction false} NoSeparatorInDigits(s: string)
    requires AllDigits(s)
    ensures '.' !in s && '/' !in s && '-' !in s
  {
  }
}
