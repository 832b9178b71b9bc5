/** Conversion of Unix seconds to a civil date and time in UTC. */
module Calendar {

  datatype DateTime = DateTime(year: nat, month: nat, day: nat, hour: nat, minute: nat, second: nat)

  predicate IsLeap(y: nat) {
    (y % 4 == 0 && y % 100 != 0) || y % 400 == 0
  }

  function YearLength(y: nat): (n: nat)
    ensures n == 365 || n == 366
  {
    if IsLeap(y) then 366 else 365
  }

  // ---- the reference: closed-form day count ----

  /** Leap years among the years 1 to `n`. */
  function LeapsThrough(n: nat): (r: int) {
    n / 4 - n / 100 + n / 400
  }

  /** Days from 1970-01-01 to the first day of year `y`. */
  function DaysBeforeYear(y: nat): (r: int)
    requires y >= 1970
  {
    365 * (y - 1970) + LeapsThrough(y - 1) - LeapsThrough(1969)
  }

  /** Days from the first of January to the first of month `m`, month 13 being the next January. */
  function MonthStart(leap: bool, m: nat): (r: int)
    requires 1 <= m <= 13
  {
    (367 * m - 362) / 12 - if m <= 2 then 0 else if leap then 1 else 2
  }

  function MonthLength(leap: bool, m: nat): (r: int)
    requires 1 <= m <= 12
  {
    MonthStart(leap, m + 1) - MonthStart(leap, m)
  }

  /** A date and time that exists in the calendar, from 1970 on. */
  predicate Valid(t: DateTime) {
    && t.year >= 1970 && 1 <= t.month <= 12
    && 1 <= t.day <= MonthLength(IsLeap(t.year), t.month)
    && t.hour < 24 && t.minute < 60 && t.second < 60
  }

  function DayNumber(t: DateTime): (d: int)
    requires Valid(t)
  {
    DaysBeforeYear(t.year) + MonthStart(IsLeap(t.year), t.month) + t.day - 1
  }

  function ToSeconds(t: DateTime): (s: int)
    requires Valid(t)
  {
    86400 * DayNumber(t) + 3600 * t.hour + 60 * t.minute + t.second
  }

  // ---- the closed form follows the leap rule ----

  lemma DivStep(y: nat, m: nat)
    requires y >= 1 && (m == 4 || m == 100 || m == 400)
    ensures y / m == (y - 1) / m + if y % m == 0 then 1 else 0
  {
  }

  lemma FourDividesHundred(y: nat)
    requires y % 100 == 0
    ensures y % 4 == 0
  {
    assert y % 4 == 4 * (25 * (y / 100) - y / 4);
  }

  lemma HundredDividesFourHundred(y: nat)
    requires y % 400 == 0
    ensures y % 100 == 0
  {
    assert y % 100 == 100 * (4 * (y / 400) - y / 100);
  }

  lemma LeapStep(y: nat)
    requires y >= 1
    ensures LeapsThrough(y) == LeapsThrough(y - 1) + if IsLeap(y) then 1 else 0
  {
    DivStep(y, 4);
    DivStep(y, 100);
    DivStep(y, 400);
    if y % 400 == 0 {
      HundredDividesFourHundred(y);
    }
    if y % 100 == 0 {
      FourDividesHundred(y);
    }
  }

  /** The closed form agrees with counting years one by one. */
  lemma NextYear(y: nat)
    requires y >= 1970
    ensures DaysBeforeYear(y + 1) == DaysBeforeYear(y) + YearLength(y)
  {
    LeapStep(y);
  }

  // ---- the code: years and months by repeated subtraction ----

  /** The table of the source. */
  function MonthDays(leap: bool): (r: seq<nat>)
    ensures |r| == 12
    ensures forall i :: 0 <= i < 12 ==> 28 <= r[i] <= 31
  {
    [31, if leap then 29 else 28, 31, 30, 31, 30, 31, 31, 30, 31, 30, 31]
  }

  /** The table agrees with the closed form. */
  lemma TableIsClosedForm(leap: bool, k: nat)
    requires k < 12
    ensures MonthDays(leap)[k] == MonthLength(leap, k + 1)
  {
  }

  /** The two loops of the source, on the number of days. */
  method SplitDays(days: nat) returns (year: nat, monthIndex: nat, dayIndex: nat)
    ensures year >= 1970 && monthIndex < 12
    ensures dayIndex < MonthLength(IsLeap(year), monthIndex + 1)
    ensures DaysBeforeYear(year) + MonthStart(IsLeap(year), monthIndex + 1) + dayIndex == days
  {
    var y: nat := 1970;
    var remaining: nat := days;
    while remaining >= YearLength(y)
      invariant y >= 1970 && DaysBeforeYear(y) + remaining == days
      decreases remaining
    {
      NextYear(y);
      remaining := remaining - YearLength(y);
      y := y + 1;
    }
    var monthDays := MonthDays(IsLeap(y));
    monthIndex := 0;
    var i := 0;
    while i < 12
      invariant 0 <= i <= 12
      invariant DaysBeforeYear(y) + MonthStart(IsLeap(y), i + 1) + remaining == days
      invariant MonthStart(IsLeap(y), i + 1) + remaining < YearLength(y)
      decreases 12 - i
    {
      TableIsClosedForm(IsLeap(y), i);
      if remaining < monthDays[i] {
        monthIndex := i;
        break;
      }
      remaining := remaining - monthDays[i];
      i := i + 1;
    }
    year, dayIndex := y, remaining;
  }

  lemma TimeOfDayParts(secs: nat)
    ensures var tod := secs % 86400;
      && tod / 3600 < 24 && (tod % 3600) / 60 < 60
      && 86400 * (secs / 86400) + 3600 * (tod / 3600) + 60 * ((tod % 3600) / 60) + tod % 60 == secs
  {
  }

  // ---- order ----

  /** Field by field, year first. */
  predicate Before(a: DateTime, b: DateTime) {
    || a.year < b.year
    || (a.year == b.year &&
       (|| a.month < b.month
        || (a.month == b.month &&
           (|| a.day < b.day
            || (a.day == b.day &&
               (|| a.hour < b.hour
                || (a.hour == b.hour &&
                   (a.minute < b.minute || (a.minute == b.minute && a.second < b.second)))))))))
  }

  lemma {:induction false} YearsIncrease(a: nat, b: nat)
    requires 1970 <= a < b
    ensures DaysBeforeYear(a) + YearLength(a) <= DaysBeforeYear(b)
    decreases b
  {
    if a + 1 == b {
      NextYear(a);
    } else {
      YearsIncrease(a, b - 1);
      NextYear(b - 1);
    }
  }

  lemma {:induction false} MonthsIncrease(leap: bool, a: nat, b: nat)
    requires 1 <= a < b <= 13
    ensures MonthStart(leap, a + 1) <= MonthStart(leap, b)
    decreases b
  {
    if a + 1 == b {
    } else {
      MonthsIncrease(leap, a, b - 1);
    }
  }

  lemma DayWithinYear(t: DateTime)
    requires Valid(t)
    ensures DaysBeforeYear(t.year) <= DayNumber(t) < DaysBeforeYear(t.year) + YearLength(t.year)
  {
    MonthsIncrease(IsLeap(t.year), t.month, 13);
    if t.month > 1 {
      MonthsIncrease(IsLeap(t.year), 1, t.month);
    }
  }

  lemma DaysIncrease(a: DateTime, b: DateTime)
    requires Valid(a) && Valid(b)
    requires a.year < b.year || (a.year == b.year && (a.month < b.month || (a.month == b.month && a.day < b.day)))
    ensures DayNumber(a) < DayNumber(b)
  {
    if a.year < b.year {
      YearsIncrease(a.year, b.year);
      DayWithinYear(a);
      DayWithinYear(b);
    } else if a.month < b.month {
      MonthsIncrease(IsLeap(a.year), a.month, b.month);
    }
  }

  /** A later calendar time is a larger number of seconds. */
  lemma SecondsIncrease(a: DateTime, b: DateTime)
    requires Valid(a) && Valid(b) && Before(a, b)
    ensures ToSeconds(a) < ToSeconds(b)
  {
    if !(a.year == b.year && a.month == b.month && a.day == b.day) {
      DaysIncrease(a, b);
    }
  }

  /** Calendar order and second order are the same, so distinct seconds have distinct dates and a larger
      number of seconds is a later date. */
  lemma OrderPreserved(a: DateTime, b: DateTime)
    requires Valid(a) && Valid(b)
    ensures Before(a, b) <==> ToSeconds(a) < ToSeconds(b)
    ensures a == b <==> ToSeconds(a) == ToSeconds(b)
  {
    if Before(a, b) {
      SecondsIncrease(a, b);
    } else if a != b {
      SecondsIncrease(b, a);
    }
  }

  lemma OneTimePerSecond(t: DateTime)
    requires Valid(t)
    ensures forall u :: Valid(u) && ToSeconds(u) == ToSeconds(t) ==> u == t
  {
    forall u | Valid(u) && ToSeconds(u) == ToSeconds(t) ensures u == t {
      OrderPreserved(u, t);
    }
  }

  // ---- the code: the whole conversion ----

  /** The computed fields form the one calendar date and time that is `secs` seconds after the epoch. */
  method FromEpoch(secs: nat) returns (t: DateTime)
    ensures Valid(t) && ToSeconds(t) == secs
    ensures forall u :: Valid(u) && ToSeconds(u) == secs ==> u == t
  {
    var days := secs / 86400;
    var timeOfDay := secs % 86400;
    var h := timeOfDay / 3600;
    var m := (timeOfDay % 3600) / 60;
    var s := timeOfDay % 60;
    var y, monthIndex, dayIndex := SplitDays(days);
    t := DateTime(y, monthIndex + 1, dayIndex + 1, h, m, s);
    TimeOfDayParts(secs);
    OneTimePerSecond(t);
  }

  /** Every calendar time from 1970 on is the image of exactly its own seconds. */
  lemma SecondsNonNegative(t: DateTime)
    requires Valid(t)
    ensures ToSeconds(t) >= 0
  {
    DayWithinYear(t);
    if t.year > 1970 {
      YearsIncrease(1970, t.year);
    }
  }
}
