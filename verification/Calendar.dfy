/** mktime and gmtime_r of src/kernel/lib/time.c. */
module Calendar {

  /** struct tm, as far as it is filled. `year` counts from 1900, `mon` from 0. */
  datatype Tm = Tm(sec: nat, min: nat, hour: nat, mday: nat, mon: nat, year: nat, wday: nat, yday: nat)

  predicate Leap(year: nat) {
    year % 4 == 0 && (year % 100 != 0 || year % 400 == 0)
  }

  function YearSize(year: nat): nat {
    if Leap(year) then 366 else 365
  }

  /** The table _ytab. */
  function MonthSize(leap: bool, mon: nat): (n: nat)
    requires mon < 12
    ensures 28 <= n <= 31
  {
    if mon == 1 then (if leap then 29 else 28)
    else if mon in {3, 5, 8, 10} then 30
    else 31
  }

  // ---------------------------------------------------------------- the two loops

  datatype Date = Date(year: nat, day: nat)

  /** The year loop: from `year` on, as long as the day number reaches past the year. */
  function YearLoop(dayno: nat, year: nat): Date
    decreases dayno
  {
    if dayno >= YearSize(year) then YearLoop(dayno - YearSize(year), year + 1) else Date(year, dayno)
  }

  /** The month loop, on the day of the year; it stops at 12 at the latest. */
  function MonthLoop(leap: bool, day: nat, mon: nat): (nat, nat)
    requires mon <= 12
    decreases 12 - mon
  {
    if mon < 12 && day >= MonthSize(leap, mon) then MonthLoop(leap, day - MonthSize(leap, mon), mon + 1)
    else (mon, day)
  }

  function Sec(clock: nat): nat {
    clock % 60
  }

  function Min(clock: nat): nat {
    clock % 3600 / 60
  }

  function Hour(clock: nat): nat {
    clock / 3600
  }

  /** The fields for a day counted from the start of 1970 and a second of that day. */
  function Dated(dayno: nat, clock: nat): Tm {
    var d := YearLoop(dayno, 1970);
    var (mon, mday) := MonthLoop(Leap(d.year), d.day, 0);
    Tm(Sec(clock), Min(clock), Hour(clock), mday + 1, mon,
       if d.year >= 1900 then d.year - 1900 else 0, (dayno + 4) % 7, d.day + 1)
  }

  /** The fields gmtime_r fills in. */
  function Gmtime(time: nat): Tm {
    Dated(time / 86400, time % 86400)
  }

  // ---------------------------------------------------------------- days before a year

  /** The days from the start of 1970 to the start of `year`. */
  function DaysBefore(year: nat): nat
    requires year >= 1970
    decreases year
  {
    if year == 1970 then 0 else DaysBefore(year - 1) + YearSize(year - 1)
  }

  /** The closed form of mktime (section 4.16 of POSIX.1-2017 XBD), in years since 1900. */
  function LeapDays(y: nat): int
    requires y >= 70
  {
    (y - 69) / 4 - (y - 1) / 100 + (y + 299) / 400
  }

  lemma StepBy4(x: nat)
    ensures (x + 1) / 4 == x / 4 + (if (x + 1) % 4 == 0 then 1 else 0)
  {
  }

  lemma StepBy100(x: nat)
    ensures (x + 1) / 100 == x / 100 + (if (x + 1) % 100 == 0 then 1 else 0)
  {
  }

  lemma StepBy400(x: nat)
    ensures (x + 1) / 400 == x / 400 + (if (x + 1) % 400 == 0 then 1 else 0)
  {
  }

  lemma Again4(y: nat)
    requires y >= 70
    ensures (y - 68) % 4 == (1900 + y) % 4
  {
    assert 1900 + y == (y - 68) + 492 * 4;
  }

  lemma Again100(y: nat)
    ensures y % 100 == (1900 + y) % 100
  {
    assert 1900 + y == y + 19 * 100;
  }

  lemma Again400(y: nat)
    ensures (y + 300) % 400 == (1900 + y) % 400
  {
    assert 1900 + y == (y + 300) + 4 * 400;
  }

  lemma OneMoreYear(y: nat)
    requires y >= 70
    ensures LeapDays(y + 1) == LeapDays(y) + (if Leap(1900 + y) then 1 else 0)
  {
    StepBy4(y - 69);
    StepBy100(y - 1);
    StepBy400(y + 299);
    Again4(y);
    Again100(y);
    Again400(y);
    LeapFromParts(1900 + y);
  }

  lemma LeapFromParts(year: nat)
    ensures year % 400 == 0 ==> year % 100 == 0
    ensures year % 100 == 0 ==> year % 4 == 0
  {
    Multiples(year / 400, year / 100);
  }

  lemma Multiples(p: nat, q: nat)
    ensures p * 400 % 100 == 0 && q * 100 % 4 == 0
  {
    Hundreds(p * 4);
    Fours(q * 25);
  }

  lemma Hundreds(q: nat)
    ensures q * 100 % 100 == 0
  {
  }

  lemma Fours(q: nat)
    ensures q * 4 % 4 == 0
  {
  }

  /** The closed form agrees with counting year by year. */
  lemma {:induction false} ClosedForm(year: nat)
    requires year >= 1970
    ensures DaysBefore(year) == 365 * (year - 1970) + LeapDays(year - 1900)
    decreases year
  {
    if year > 1970 {
      ClosedForm(year - 1);
      OneMoreYear(year - 1901);
    }
  }

  /** The year loop finds the year that the day lies in. */
  lemma {:induction false} YearLoopFinds(dayno: nat, year: nat)
    requires year >= 1970
    ensures var d := YearLoop(dayno, year);
            && d.year >= year && d.day < YearSize(d.year)
            && DaysBefore(d.year) + d.day == DaysBefore(year) + dayno
    decreases dayno
  {
    if dayno >= YearSize(year) {
      YearLoopFinds(dayno - YearSize(year), year + 1);
    }
  }

  // ---------------------------------------------------------------- months

  /** The days of the year before a month. */
  function MonthStart(leap: bool, mon: nat): nat
    requires mon <= 12
    decreases mon
  {
    if mon == 0 then 0 else MonthStart(leap, mon - 1) + MonthSize(leap, mon - 1)
  }

  lemma YearIsTwelveMonths(leap: bool)
    ensures MonthStart(leap, 12) == if leap then 366 else 365
  {
  }

  /** The month loop finds the month that the day lies in, and never runs past December. */
  lemma {:induction false} MonthLoopFinds(leap: bool, day: nat, mon: nat)
    requires mon < 12 && MonthStart(leap, mon) + day < MonthStart(leap, 12)
    ensures var (m, d) := MonthLoop(leap, day, mon);
            && mon <= m <= 11 && d < MonthSize(leap, m)
            && MonthStart(leap, m) + d == MonthStart(leap, mon) + day
    decreases 12 - mon
  {
    hide MonthSize;
    if day >= MonthSize(leap, mon) {
      assert MonthStart(leap, mon + 1) == MonthStart(leap, mon) + MonthSize(leap, mon);
      if mon + 1 < 12 {
        MonthLoopFinds(leap, day - MonthSize(leap, mon), mon + 1);
      }
    }
  }

  // ---------------------------------------------------------------- mktime

  function Wrapped(x: int): (r: nat)
    ensures r < 0x1_0000_0000
  {
    x % 0x1_0000_0000
  }

  /** mktime in unsigned 32-bit arithmetic: what is divided wraps first, the rest at the end. */
  function Mktime(tm: Tm): (r: nat)
    ensures r < 0x1_0000_0000
  {
    Wrapped(tm.sec + tm.min * 60 + tm.hour * 3600 + tm.yday * 86400 + (tm.year - 70) * 31536000
            + Wrapped(tm.year - 69) / 4 * 86400 - Wrapped(tm.year - 1) / 100 * 86400
            + Wrapped(tm.year + 299) / 400 * 86400)
  }

  /** The same sum without wrapping. */
  function Seconds(tm: Tm): int
    requires tm.year >= 70
  {
    tm.sec + tm.min * 60 + tm.hour * 3600 + tm.yday * 86400 + (tm.year - 70) * 31536000 + LeapDays(tm.year) * 86400
  }

  lemma NoWrap(tm: Tm)
    requires 70 <= tm.year < 0x1_0000_0000 - 299
    ensures Mktime(tm) == Wrapped(Seconds(tm))
  {
    assert Wrapped(tm.year - 69) == tm.year - 69;
    assert Wrapped(tm.year - 1) == tm.year - 1;
    assert Wrapped(tm.year + 299) == tm.year + 299;
  }

  lemma ClockSplits(clock: nat)
    requires clock < 86400
    ensures Sec(clock) + Min(clock) * 60 + Hour(clock) * 3600 == clock
    ensures Sec(clock) < 60 && Min(clock) < 60 && Hour(clock) < 24
  {
  }

  /** The clock and the date that gmtime_r fills in: valid hours, a valid month and day of the month,
      and the day of the year counted from 1. */
  predicate IsClock(tm: Tm, clock: nat) {
    && tm.sec < 60 && tm.min < 60 && tm.hour < 24
    && tm.sec + tm.min * 60 + tm.hour * 3600 == clock
  }

  predicate IsDate(tm: Tm, dayno: nat) {
    var year := 1900 + tm.year;
    && tm.wday == (dayno + 4) % 7
    && tm.year >= 70 && 1 <= tm.yday <= YearSize(year) && DaysBefore(year) + tm.yday == dayno + 1
    && tm.mon <= 11 && 1 <= tm.mday <= MonthSize(Leap(year), tm.mon)
    && MonthStart(Leap(year), tm.mon) + tm.mday == tm.yday
  }

  lemma DateFrom(tm: Tm, d: Date, mon: nat, mday: nat, dayno: nat)
    requires d.year >= 1970 && d.day < YearSize(d.year) && DaysBefore(d.year) + d.day == dayno
    requires mon <= 11 && mday < MonthSize(Leap(d.year), mon) && MonthStart(Leap(d.year), mon) + mday == d.day
    requires tm.wday == (dayno + 4) % 7
    requires tm.year == d.year - 1900 && tm.yday == d.day + 1 && tm.mon == mon && tm.mday == mday + 1
    ensures IsDate(tm, dayno)
  {
    assert 1900 + tm.year == d.year;
  }

  lemma DatedIsDate(dayno: nat, clock: nat)
    ensures IsDate(Dated(dayno, clock), dayno)
  {
    DayIsDate(dayno);
    var d := YearLoop(dayno, 1970);
    var (mon, mday) := MonthLoop(Leap(d.year), d.day, 0);
    DateFrom(Dated(dayno, clock), d, mon, mday, dayno);
  }

  lemma GmtimeIsDate(time: nat)
    ensures IsDate(Gmtime(time), time / 86400) && IsClock(Gmtime(time), time % 86400)
  {
    DatedIsDate(time / 86400, time % 86400);
    ClockSplits(time % 86400);
  }

  lemma DayIsDate(dayno: nat)
    ensures var d := YearLoop(dayno, 1970);
            var (mon, mday) := MonthLoop(Leap(d.year), d.day, 0);
            && d.year >= 1970 && d.day < YearSize(d.year) && DaysBefore(d.year) + d.day == dayno
            && mon <= 11 && mday < MonthSize(Leap(d.year), mon) && MonthStart(Leap(d.year), mon) + mday == d.day
  {
    var d := YearLoop(dayno, 1970);
    YearLoopFinds(dayno, 1970);
    YearIsTwelveMonths(Leap(d.year));
    MonthLoopFinds(Leap(d.year), d.day, 0);
  }

  // ---------------------------------------------------------------- without the table

  /** The days of the year before a month, by a straight line through the months: 367/12 days each from January
      on, with February brought up to 30 days and set right from March on. */
  function DaysTo(leap: bool, mon: nat): int {
    (367 * (mon + 1) - 362) / 12 - if mon < 2 then 0 else if leap then 1 else 2
  }

  lemma LineStep(leap: bool, mon: nat)
    requires mon < 12
    ensures DaysTo(leap, mon + 1) == DaysTo(leap, mon) + MonthSize(leap, mon)
  {
  }

  lemma {:induction false} MonthStartIsLine(leap: bool, mon: nat)
    requires mon <= 12
    ensures MonthStart(leap, mon) == DaysTo(leap, mon)
    decreases mon
  {
    hide DaysTo, MonthSize;
    if mon == 0 {
      NoDaysBefore(leap);
    } else {
      MonthStartIsLine(leap, mon - 1);
      LineStep(leap, mon - 1);
    }
  }

  lemma NoDaysBefore(leap: bool)
    ensures DaysTo(leap, 0) == 0
  {
  }

  /** The day, the month and the year of every time, by formulas on the fields alone. */
  lemma DateByFormula(time: nat)
    ensures var tm := Gmtime(time);
            var year := 1900 + tm.year;
            var leap := year % 400 == 0 || (year % 4 == 0 && year % 100 != 0);
            && tm.mon < 12 && 1 <= tm.mday && tm.yday - tm.mday == DaysTo(leap, tm.mon)
            && tm.yday <= DaysTo(leap, tm.mon + 1) && tm.year >= 70
            && time / 86400 + 1 - tm.yday
               == 365 * (tm.year - 70) + (tm.year - 69) / 4 - (tm.year - 1) / 100 + (tm.year + 299) / 400
            && tm.sec < 60 && tm.min < 60 && tm.hour < 24
            && tm.hour * 3600 + tm.min * 60 + tm.sec == time % 86400
  {
    hide Gmtime, DaysTo, DaysBefore, MonthStart, MonthSize;
    var tm := Gmtime(time);
    GmtimeIsDate(time);
    var year := 1900 + tm.year;
    LeapAsOr(year);
    YearByFormula(tm.year);
    MonthStartIsLine(Leap(year), tm.mon);
    MonthStartIsLine(Leap(year), tm.mon + 1);
    NextMonth(Leap(year), tm.mon);
  }

  lemma LeapAsOr(year: nat)
    ensures Leap(year) <==> year % 400 == 0 || (year % 4 == 0 && year % 100 != 0)
  {
    LeapFromParts(year);
  }

  lemma YearByFormula(y: nat)
    requires y >= 70
    ensures DaysBefore(1900 + y) == 365 * (y - 70) + (y - 69) / 4 - (y - 1) / 100 + (y + 299) / 400
  {
    ClosedForm(1900 + y);
  }

  lemma NextMonth(leap: bool, mon: nat)
    requires mon < 12
    ensures MonthStart(leap, mon + 1) == MonthStart(leap, mon) + MonthSize(leap, mon)
  {
  }

  /** Converting there and back gives a time one day later, for every time. */
  lemma RoundTrip(time: nat)
    ensures Gmtime(time).year >= 70 && Seconds(Gmtime(time)) == time + 86400
  {
    var tm := Gmtime(time);
    GmtimeIsDate(time);
    ClosedForm(1900 + tm.year);
    assert time == time / 86400 * 86400 + time % 86400;
  }

  /** On 32-bit times it does so exactly when the next day is still a 32-bit time. */
  lemma RoundTrip32Iff(time: nat)
    requires time < 0x1_0000_0000
    ensures Mktime(Gmtime(time)) == Wrapped(time + 86400)
    ensures Mktime(Gmtime(time)) == time + 86400 <==> time < 0x1_0000_0000 - 86400
  {
    RoundTrip(time);
    YearBound(time);
    NoWrap(Gmtime(time));
    WrapsIff(time + 86400);
  }

  lemma WrapsIff(x: nat)
    ensures Wrapped(x) == x <==> x < 0x1_0000_0000
  {
  }

  lemma YearBound(time: nat)
    requires time < 0x1_0000_0000
    ensures Gmtime(time).year < 0x1_0000
  {
    var tm := Gmtime(time);
    GmtimeIsDate(time);
    ClosedForm(1900 + tm.year);
  }

  // ---------------------------------------------------------------- gmtime_r as it runs

  method FindYear(days: nat) returns (year: nat, dayno: nat)
    ensures Date(year, dayno) == YearLoop(days, 1970)
  {
    year, dayno := 1970, days;
    while dayno >= YearSize(year)
      invariant YearLoop(days, 1970) == YearLoop(dayno, year)
      decreases dayno
    {
      dayno := dayno - YearSize(year);
      year := year + 1;
    }
  }

  /** The month loop has no bound of its own; it stops inside the table. */
  method FindMonth(leap: bool, day: nat) returns (mon: nat, dayno: nat)
    requires day < MonthStart(leap, 12)
    ensures (mon, dayno) == MonthLoop(leap, day, 0)
  {
    mon, dayno := 0, day;
    while dayno >= MonthSize(leap, mon)
      invariant mon < 12 && MonthStart(leap, mon) + dayno < MonthStart(leap, 12)
      invariant MonthLoop(leap, day, 0) == MonthLoop(leap, dayno, mon)
      decreases 12 - mon
    {
      dayno := dayno - MonthSize(leap, mon);
      mon := mon + 1;
    }
  }

  method GmtimeR(time: nat) returns (tm: Tm)
    ensures tm == Gmtime(time)
  {
    var clock := time % 86400;
    DayIsDate(time / 86400);
    var year, day := FindYear(time / 86400);
    YearIsTwelveMonths(Leap(year));
    var mon, dayno := FindMonth(Leap(year), day);
    return Tm(Sec(clock), Min(clock), Hour(clock), dayno + 1, mon, year - 1900, (time / 86400 + 4) % 7, day + 1);
  }
}
