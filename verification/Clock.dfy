/** The real-time clock's calendar, set from and read back as Unix seconds. */
module Clock {
  import opened Words

  datatype DateTime = DateTime(year: i16, month: i8, day: i8, dotw: i8, hour: i8, min: i8, sec: i8)

  // ------------------------------------------------------------ plain day counting

  predicate Leap(y: int) {
    (y % 4 == 0 && y % 100 != 0) || y % 400 == 0
  }

  function DaysInYear(y: int): nat {
    if Leap(y) then 366 else 365
  }

  const DAYS_IN_MONTH: seq<nat> := [31, 28, 31, 30, 31, 30, 31, 31, 30, 31, 30, 31]

  function DaysInMonth(y: int, m: int): nat
    requires 1 <= m <= 12
  {
    DAYS_IN_MONTH[m - 1] + if m == 2 && Leap(y) then 1 else 0
  }

  /** Days from 1970-01-01 to the first day of year `y`. */
  function DaysBeforeYear(y: int): nat
    decreases y - 1970
  {
    if y <= 1970 then 0 else DaysBeforeYear(y - 1) + DaysInYear(y - 1)
  }

  /** Days from the first day of year `y` to the first day of its month `m`. */
  function DaysBeforeMonth(y: int, m: int): nat
    requires 1 <= m <= 13
  {
    if m == 1 then 0 else DaysBeforeMonth(y, m - 1) + DaysInMonth(y, m - 1)
  }

  predicate ValidDate(d: DateTime) {
    && 1970 <= d.year && 1 <= d.month <= 12 && 1 <= d.day <= DaysInMonth(d.year, d.month)
    && 0 <= d.hour < 24 && 0 <= d.min < 60 && 0 <= d.sec < 60
  }

  function DayNumber(d: DateTime): int
    requires ValidDate(d)
  {
    DaysBeforeYear(d.year) + DaysBeforeMonth(d.year, d.month) + (d.day - 1)
  }

  function UnixSeconds(d: DateTime): int
    requires ValidDate(d)
  {
    86400 * DayNumber(d) + 3600 * (d.hour as int) + 60 * (d.min as int) + d.sec
  }

  // --------------------------------------------------------------- order of fields

  /** `a` comes before `b`, comparing year, month, day, hour, minute, second. */
  predicate Before(a: DateTime, b: DateTime) {
    a.year < b.year || (a.year == b.year &&
    (a.month < b.month || (a.month == b.month &&
    (a.day < b.day || (a.day == b.day &&
    (a.hour < b.hour || (a.hour == b.hour &&
    (a.min < b.min || (a.min == b.min && a.sec < b.sec)))))))))
  }

  lemma {:induction false} YearsAdd(y: int, z: int)
    requires 1970 <= y < z
    ensures DaysBeforeYear(y) + DaysInYear(y) <= DaysBeforeYear(z)
    decreases z - y
  {
    if y + 1 < z {
      YearsAdd(y, z - 1);
    }
  }

  lemma {:induction false} MonthsAdd(y: int, m: int, n: int)
    requires 1 <= m < n <= 13
    ensures DaysBeforeMonth(y, m) + DaysInMonth(y, m) <= DaysBeforeMonth(y, n)
    decreases n - m
  {
    if m + 1 < n {
      MonthsAdd(y, m, n - 1);
    }
  }

  /** The months before `m` as a table; together they fill the year. */
  lemma MonthTable(y: int, m: int)
    requires 1 <= m <= 13
    ensures DaysBeforeMonth(y, m) == [0, 31, 59, 90, 120, 151, 181, 212, 243, 273, 304, 334, 365][m - 1]
                                     + if m > 2 && Leap(y) then 1 else 0
  {
    if m > 1 {
      MonthTable(y, m - 1);
    }
  }

  lemma DayOrder(a: DateTime, b: DateTime)
    requires ValidDate(a) && ValidDate(b)
    requires a.year < b.year || (a.year == b.year && (a.month < b.month || (a.month == b.month && a.day < b.day)))
    ensures DayNumber(a) < DayNumber(b)
  {
    if a.year < b.year {
      YearsAdd(a.year, b.year);
      MonthsAdd(a.year, a.month, 13);
      MonthTable(a.year, 13);
    } else if a.month < b.month {
      MonthsAdd(a.year, a.month, b.month);
    }
  }

  /** Field order is time order. */
  lemma FieldOrder(a: DateTime, b: DateTime)
    requires ValidDate(a) && ValidDate(b)
    ensures Before(a, b) <==> UnixSeconds(a) < UnixSeconds(b)
  {
    Earlier(a, b);
    Earlier(b, a);
  }

  lemma Earlier(a: DateTime, b: DateTime)
    requires ValidDate(a) && ValidDate(b)
    ensures Before(a, b) ==> UnixSeconds(a) < UnixSeconds(b)
  {
    if a.year != b.year || a.month != b.month || a.day != b.day {
      if Before(a, b) {
        DayOrder(a, b);
      }
    }
  }

  // ----------------------------------------------------------------------- weekday

  /** The closed form that `clock_set_from_unix_time` stores, 0 for Sunday. */
  function Zeller(year: int, month: int, day: int): int {
    var y := if month < 3 then year - 1 else year;
    var m := if month < 3 then month + 12 else month;
    ((day + 13 * (m + 1) / 5 + y + y / 4 - y / 100 + y / 400) % 7 + 6) % 7
  }

  function LeapsUpTo(y: int): int { y / 4 - y / 100 + y / 400 }

  lemma LeapStep(y: int)
    ensures LeapsUpTo(y) == LeapsUpTo(y - 1) + if Leap(y) then 1 else 0
  {
    DivStep(y, 4);
    DivStep(y, 100);
    DivStep(y, 400);
    Divisors(y);
  }

  lemma Divisors(y: int)
    ensures y % 400 == 0 ==> y % 100 == 0
    ensures y % 100 == 0 ==> y % 4 == 0
  {
  }

  lemma DivStep(y: int, d: int)
    requires d == 4 || d == 100 || d == 400
    ensures y / d == (y - 1) / d + if y % d == 0 then 1 else 0
  {
  }

  lemma {:induction false} YearClosedForm(y: int)
    requires 1970 <= y
    ensures DaysBeforeYear(y) == 365 * (y - 1970) + LeapsUpTo(y - 1) - 477
    decreases y
  {
    if y > 1970 {
      YearClosedForm(y - 1);
      LeapStep(y - 1);
    }
  }

  /** Days from 1900-01-01, the epoch of NTP, to the first day of year `y`. */
  function DaysFrom1900(y: int): nat
    decreases y - 1900
  {
    if y <= 1900 then 0 else DaysFrom1900(y - 1) + DaysInYear(y - 1)
  }

  lemma {:induction false} DaysFrom1900ClosedForm(y: int)
    requires 1900 <= y
    ensures DaysFrom1900(y) == 365 * (y - 1900) + LeapsUpTo(y - 1) - 460
    decreases y
  {
    if y > 1900 {
      DaysFrom1900ClosedForm(y - 1);
      LeapStep(y - 1);
    }
  }

  lemma SameWeekday(a: int, b: int, weeks: int)
    requires a == b + 7 * weeks
    ensures a % 7 == b % 7
  {
  }

  /** Zeller's congruence agrees with counting days from Thursday, 1970-01-01. */
  lemma ZellerCountsDays(d: DateTime)
    requires ValidDate(d)
    ensures Zeller(d.year, d.month, d.day) == (DayNumber(d) + 4) % 7
  {
    var (year, month, day) := (d.year as int, d.month as int, d.day as int);
    YearClosedForm(year);
    LeapStep(year);
    MonthTable(year, month);
    var y := if month < 3 then year - 1 else year;
    var m := if month < 3 then month + 12 else month;
    var sum := day + 13 * (m + 1) / 5 + y + LeapsUpTo(y);
    var months := [0, 31, 59, 90, 120, 151, 181, 212, 243, 273, 304, 334][month - 1];
    var shift := if month < 3 then 1 else 0;
    assert DayNumber(d) == 365 * (year - 1970) + LeapsUpTo(y) - 477 + months + day - 1;
    var rest := months - 13 * (m + 1) / 5 + shift + 4 - 6 - 477 - 1 - 365 * 1970;
    assert DayNumber(d) + 4 == sum + 6 + 364 * year + rest;
    assert rest % 7 == 0 by { MonthShift(month); }
    SameWeekday(DayNumber(d) + 4, sum + 6, 52 * year + rest / 7);
    SameWeekday(sum + 6, sum % 7 + 6, sum / 7);
  }

  lemma MonthShift(month: int)
    requires 1 <= month <= 12
    ensures ([0, 31, 59, 90, 120, 151, 181, 212, 243, 273, 304, 334][month - 1]
             - 13 * ((if month < 3 then month + 12 else month) + 1) / 5
             + (if month < 3 then 1 else 0) + 4 - 6 - 477 - 1 - 365 * 1970) % 7 == 0
  {
  }

  /** The loops of `clock_get_unix_time`, over years and over months. */
  method CountDays(dt: DateTime) returns (days: u32)
    requires ValidDate(dt)
    ensures days == DayNumber(dt)
  {
    days := 0;
    var y: int := 1970;
    while y < dt.year
      invariant 1970 <= y <= dt.year && days == DaysBeforeYear(y)
    {
      DaysFit(y, 1);
      days := days + DaysInYear(y);
      y := y + 1;
    }
    var m: int := 1;
    while m < dt.month
      invariant 1 <= m <= dt.month && days == DaysBeforeYear(dt.year) + DaysBeforeMonth(dt.year, m)
    {
      DaysFit(dt.year, m);
      days := days + DAYS_IN_MONTH[m - 1];
      if m == 2 && Leap(dt.year) {
        days := days + 1;
      }
      m := m + 1;
    }
    DaysFit(dt.year, dt.month);
    days := days + (dt.day as int - 1);
  }

  // --------------------------------------------------------------------- the device

  class Rtc {
    var now: Option<DateTime>  // None until the clock is first set

    predicate Valid()
      reads this
    {
      now.Some? ==> ValidDate(now.value)
    }

    constructor ()
      ensures Valid() && now == None
    {
      now := None;
    }

    /** `clock_set_from_unix_time`. By `FieldOrder` at most one date has these
        seconds, so this fixes every field. */
    method SetFromUnixTime(unixTime: u32)
      modifies this
      ensures Valid() && now.Some?
      ensures UnixSeconds(now.value) == unixTime
      ensures now.value.dotw == (unixTime / 86400 + 4) % 7
    {
      var remaining: u32 := unixTime;
      var secs := remaining % 60;
      remaining := remaining / 60;
      var mins := remaining % 60;
      remaining := remaining / 60;
      var hours := remaining % 24;
      remaining := remaining / 24;
      ghost var days: int := remaining;

      var year: u32 := 1970;
      while true
        invariant 1970 <= year && remaining + DaysBeforeYear(year) == days
        invariant year - 1970 <= days - remaining
        decreases remaining
      {
        var daysInYear := if Leap(year) then 366 else 365;
        if remaining < daysInYear {
          break;
        }
        remaining := remaining - daysInYear;
        year := year + 1;
      }
      MonthTable(year, 13);
      ghost var dayOfYear: int := remaining;
      assert year < 0x7000 by { YearBound(year); }

      var month: u32 := 1;
      while true
        invariant 1 <= month <= 12 && remaining + DaysBeforeMonth(year, month) == dayOfYear
        decreases 12 - month
      {
        var dim := DAYS_IN_MONTH[month - 1];
        if month == 2 && Leap(year) {
          dim := dim + 1;
        }
        if remaining < dim {
          break;
        }
        MonthsLeft(year, month, remaining);
        remaining := remaining - dim;
        month := month + 1;
      }

      var day := remaining + 1;
      Assembled(unixTime, year, month, day);
      now := Some(DateTime(year, month, day, Zeller(year, month, day), hours, mins, secs));
    }

    /** `clock_get_unix_time`, in wrapping 32-bit arithmetic. */
    method GetUnixTime() returns (unixTime: Option<u32>)
      requires Valid()
      ensures unixTime == match now
                          case None => None
                          case Some(d) => Some(UnixSeconds(d) % 0x1_0000_0000)
    {
      if now.None? {
        return None;
      }
      var dt := now.value;
      var days := CountDays(dt);
      return Some((days as int * 86400 + dt.hour as int * 3600 + dt.min as int * 60 + dt.sec) % 0x1_0000_0000);
    }

    /** Setting the clock and reading it back returns the time that was set. */
    method RoundTrip(unixTime: u32) returns (readBack: Option<u32>)
      modifies this
      ensures Valid() && readBack == Some(unixTime)
    {
      SetFromUnixTime(unixTime);
      readBack := GetUnixTime();
    }
  }

  /** The loops leave a valid date of the time they started from. */
  lemma Assembled(t: u32, year: int, month: int, day: int)
    requires 1970 <= year < 0x7000 && 1 <= month <= 12 && 1 <= day <= DaysInMonth(year, month)
    requires t / 60 / 60 / 24 == DaysBeforeYear(year) + DaysBeforeMonth(year, month) + (day - 1)
    ensures 0 <= Zeller(year, month, day) < 7
    ensures var d := DateTime(year, month, day, Zeller(year, month, day), t / 60 / 60 % 24, t / 60 % 60, t % 60);
            ValidDate(d) && UnixSeconds(d) == t && d.dotw == (t / 86400 + 4) % 7
  {
    assert DaysInMonth(year, month) <= 31;
    hide DaysBeforeYear, DaysBeforeMonth, DaysInMonth, Zeller;
    SplitDay(t);
    ZellerCountsDays(DateTime(year, month, day, 0, t / 60 / 60 % 24, t / 60 % 60, t % 60));
  }

  lemma SplitDay(t: u32)
    ensures t / 60 / 60 / 24 == t / 86400
    ensures t == 86400 * (t / 60 / 60 / 24) + 3600 * (t / 60 / 60 % 24) + 60 * (t / 60 % 60) + t % 60
  {
  }

  lemma YearBound(y: int)
    requires 1970 <= y
    ensures 365 * (y - 1970) <= DaysBeforeYear(y)
  {
    if y > 1970 {
      YearBound(y - 1);
    }
  }

  lemma DaysFit(year: i16, m: int)
    requires 1 <= m <= 12
    ensures DaysBeforeYear(year) + DaysBeforeMonth(year, m) < 0x1000_0000
  {
    if year > 1970 {
      YearUpper(year);
    }
    MonthTable(year, m);
  }

  lemma YearUpper(y: int)
    requires 1970 <= y
    ensures DaysBeforeYear(y) <= 366 * (y - 1970)
  {
    if y > 1970 {
      YearUpper(y - 1);
    }
  }

  /** The month table is never indexed past December. */
  lemma MonthsLeft(y: int, m: int, remaining: int)
    requires 1 <= m <= 12 && DaysBeforeMonth(y, m) + remaining < DaysInYear(y)
    requires DaysInMonth(y, m) <= remaining
    ensures m < 12
  {
    MonthTable(y, m);
  }
}
