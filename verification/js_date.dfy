/** The part of JavaScript's `Date` the save screen uses: parsing "YYYY-MM-DD",
    `getMonth`, `setMonth` and `toISOString`, all in UTC. The object is kept as its
    calendar fields; the time value they stand for is `DayNumber * MsPerDay`
    (always midnight, since a date-only text parses to midnight). */
module JsDate {
  import opened Wrappers
  import opened Calendar
  import opened Text

  /** A time value may not exceed 8.64e15 ms in magnitude, that is 1e8 days. */
  const MaxDays: int := 100_000_000

  predicate InTimeRange(d: Date)
    requires 1 <= d.month <= 12
  {
    -MaxDays <= DayNumber(d) <= MaxDays
  }

  /** Every date of the years 0 to 9999, all a "YYYY-MM-DD" text can name, has a time value. */
  lemma FourDigitYearsInRange(d: Date)
    requires ValidDate(d) && 0 <= d.year <= 9999
    ensures InTimeRange(d)
  {
    DayOfYearBound(d);
    if 0 < d.year {
      YearsAscend(0, d.year);
    }
    YearsAscend(d.year, 10000);
  }

  /** Months counted from year 0, so that one month later is one more. */
  function MonthIndex(d: Date): int {
    d.year * 12 + d.month - 1
  }

  /** `setMonth(m)` on a valid date, `m` counted from 0 as `getMonth` counts:
      whole multiples of 12 carry into the year (by floor division), the day of the
      month is kept, and a day the target month lacks runs on into the next month. */
  function WithMonth(date: Date, m: int): (r: Date)
    requires ValidDate(date)
    ensures ValidDate(r)
    ensures r.day == date.day || 1 <= r.day <= 3
  {
    var y := date.year + m / 12;
    var mo := m % 12 + 1;
    var length := DaysInMonth(y, mo);
    if date.day <= length then Date(y, mo, date.day)
    else
      var next := FirstOfNextMonth(y, mo);
      Date(next.year, next.month, date.day - length)
  }

  /** `setMonth(getMonth() + n)`: the date `n` months later. */
  function AddMonths(date: Date, n: int): (r: Date)
    requires ValidDate(date)
    ensures ValidDate(r)
  {
    WithMonth(date, date.month - 1 + n)
  }

  /** `setMonth` in calendar terms agrees with the ECMAScript definition, which adds
      the day of the month, less one, to the first day of the target month
      (MakeDay); the result is the one valid date with that day number. */
  lemma WithMonthIsMakeDay(date: Date, m: int)
    requires ValidDate(date)
    ensures ValidDate(WithMonth(date, m))
    ensures DayNumber(WithMonth(date, m))
            == DayNumber(Date(date.year + m / 12, m % 12 + 1, 1)) + date.day - 1
    ensures forall d :: ValidDate(d) && DayNumber(d) == DayNumber(WithMonth(date, m)) ==>
              d == WithMonth(date, m)
  {
    var y := date.year + m / 12;
    var mo := m % 12 + 1;
    var r := WithMonth(date, m);
    if date.day > DaysInMonth(y, mo) {
      MonthLength(y, mo);
      var next := FirstOfNextMonth(y, mo);
      assert DaysInMonth(next.year, next.month) >= 28;
    }
    forall d | ValidDate(d) && DayNumber(d) == DayNumber(r) ensures d == r {
      DayNumberOrder(d, r);
    }
  }

  /** Adding `n` months lands `n` months later with the same day of the month when the
      target month has that day; otherwise one month further on, on day 1, 2 or 3,
      having run on by the days the target month lacks. */
  lemma AddMonthsCalendar(date: Date, n: int)
    requires ValidDate(date)
    ensures var r := AddMonths(date, n);
            var target := Date(date.year + (date.month - 1 + n) / 12, (date.month - 1 + n) % 12 + 1, 1);
            && ValidDate(r)
            && MonthIndex(target) == MonthIndex(date) + n
            && (date.day <= DaysInMonth(target.year, target.month) ==>
                  MonthIndex(r) == MonthIndex(date) + n && r.day == date.day)
            && (date.day > DaysInMonth(target.year, target.month) ==>
                  MonthIndex(r) == MonthIndex(date) + n + 1
                  && r.day == date.day - DaysInMonth(target.year, target.month)
                  && 1 <= r.day <= 3)
  {
    var m := date.month - 1 + n;
    var y := date.year + m / 12;
    var mo := m % 12 + 1;
    assert MonthIndex(Date(y, mo, 1)) == date.year * 12 + m;
  }

  /** No months leaves the date alone, and a positive number of months gives a later date. */
  lemma AddMonthsLater(date: Date, n: int)
    requires ValidDate(date)
    ensures n == 0 ==> AddMonths(date, n) == date
    ensures n > 0 ==> Precedes(date, AddMonths(date, n))
    ensures n > 0 ==> DayNumber(date) < DayNumber(AddMonths(date, n))
  {
    AddMonthsCalendar(date, n);
    if n > 0 {
      DayNumberOrder(date, AddMonths(date, n));
    }
  }

  /** The year as `toISOString` writes it: four digits for 0 to 9999, otherwise a
      sign and six digits. */
  function YearText(y: int): string {
    if 0 <= y <= 9999 then Digits(y, 4)
    else if y < 0 then "-" + Digits(-y, 6)
    else "+" + Digits(y, 6)
  }

  /** "YYYY-MM-DD". */
  function IsoDateText(d: Date): string
    requires ValidDate(d)
  {
    YearText(d.year) + "-" + Digits(d.month, 2) + "-" + Digits(d.day, 2)
  }

  /** `toISOString()` of a date at UTC midnight. */
  function IsoTimestamp(d: Date): string
    requires ValidDate(d)
  {
    IsoDateText(d) + "T00:00:00.000Z"
  }

  lemma NoLetterTInDigits(s: string)
    requires AllDigits(s)
    ensures 'T' !in s
  {
  }

  /** `toISOString().split('T')[0]` is the "YYYY-MM-DD" text of the date. */
  lemma DatePartOfTimestamp(d: Date)
    requires ValidDate(d)
    ensures BeforeFirst(IsoTimestamp(d), 'T') == IsoDateText(d)
  {
    var y := d.year;
    var yd := if 0 <= y <= 9999 then Digits(y, 4) else if y < 0 then Digits(-y, 6) else Digits(y, 6);
    NoLetterTInDigits(yd);
    NoLetterTInDigits(Digits(d.month, 2));
    NoLetterTInDigits(Digits(d.day, 2));
    assert 'T' !in YearText(y);
    assert 'T' !in IsoDateText(d);
    assert IsoTimestamp(d) == IsoDateText(d) + ['T'] + "00:00:00.000Z";
    BeforeFirstOfJoin(IsoDateText(d), 'T', "00:00:00.000Z");
  }

  /** `new Date(text)` for the text of a date input: "YYYY-MM-DD" naming a real
      calendar date; `None` is the Invalid Date anything else gives. */
  function ParseIsoDate(s: string): (r: Option<Date>)
    ensures r.Some? ==> ValidDate(r.value) && 0 <= r.value.year <= 9999
  {
    if |s| == 10 && AllDigits(s[..4]) && s[4] == '-' && AllDigits(s[5..7]) && s[7] == '-'
       && AllDigits(s[8..])
    then
      ValueBound(s[..4]);
      var d := Date(Value(s[..4]), Value(s[5..7]), Value(s[8..]));
      if ValidDate(d) then Some(d) else None
    else None
  }

  lemma SliceIsoParts(a: string, b: string, c: string)
    requires |a| == 4 && |b| == 2 && |c| == 2
    ensures var s := a + "-" + b + "-" + c;
            |s| == 10 && s[..4] == a && s[4] == '-' && s[5..7] == b && s[7] == '-' && s[8..] == c
  {
  }

  /** Parsing reads back the text of any date of years 0 to 9999 ... */
  lemma ParseIsoDateText(d: Date)
    requires ValidDate(d) && 0 <= d.year <= 9999
    ensures ParseIsoDate(IsoDateText(d)) == Some(d)
  {
    var a, b, c := Digits(d.year, 4), Digits(d.month, 2), Digits(d.day, 2);
    SliceIsoParts(a, b, c);
    assert IsoDateText(d) == a + "-" + b + "-" + c;
    ValueOfDigits(d.year, 4);
    ValueOfDigits(d.month, 2);
    ValueOfDigits(d.day, 2);
  }

  /** ... and every text it accepts is the text of the date it gives. */
  lemma IsoDateTextOfParse(s: string)
    requires ParseIsoDate(s).Some?
    ensures IsoDateText(ParseIsoDate(s).value) == s
  {
    var d := ParseIsoDate(s).value;
    DigitsOfValue(s[..4]);
    DigitsOfValue(s[5..7]);
    DigitsOfValue(s[8..]);
    assert s == s[..4] + "-" + s[5..7] + "-" + s[8..];
  }

  /** A JavaScript `Date` object, held as its UTC calendar fields. */
  class MutableDate {
    var year: int
    var month: int    // counted from 0, as getMonth returns it
    var day: int
    var isNaN: bool   // the time value is NaN (Invalid Date)

    function AsDate(): Date
      reads this
    {
      Date(year, month + 1, day)
    }

    ghost predicate Valid()
      reads this
    {
      !isNaN ==> ValidDate(AsDate()) && InTimeRange(AsDate())
    }

    /** `new Date(text)` for a text that parsed to `d`. */
    constructor (d: Date)
      requires ValidDate(d) && InTimeRange(d)
      ensures Valid() && !isNaN && AsDate() == d
    {
      year, month, day := d.year, d.month - 1, d.day;
      isNaN := false;
    }

    /** `new Date(text)` for a text that does not parse: the Invalid Date. */
    constructor Invalid()
      ensures Valid() && isNaN
    {
      year, month, day := 1970, 0, 1;
      isNaN := true;
    }

    /** `setMonth(m)`: the calendar date `WithMonth` gives, or NaN when its time value
        is out of range (TimeClip); a NaN date stays NaN. */
    method SetMonth(m: int)
      requires Valid()
      modifies this
      ensures Valid()
      ensures old(isNaN) ==> isNaN
      ensures !old(isNaN) ==> (isNaN <==> !InTimeRange(WithMonth(old(AsDate()), m)))
      ensures !isNaN ==> AsDate() == WithMonth(old(AsDate()), m)
    {
      if !isNaN {
        var r := WithMonth(AsDate(), m);
        WithMonthIsMakeDay(AsDate(), m);
        if InTimeRange(r) {
          year, month, day := r.year, r.month - 1, r.day;
        } else {
          isNaN := true;
        }
      }
    }

    /** `toISOString()`; `None` stands for the RangeError it throws on an Invalid Date. */
    method ToIsoString() returns (s: Option<string>)
      requires Valid()
      ensures s.None? <==> isNaN
      ensures s.Some? ==> ValidDate(AsDate()) && s.value == IsoTimestamp(AsDate())
    {
      if isNaN {
        s := None;
      } else {
        s := Some(IsoTimestamp(AsDate()));
      }
    }
  }
}
