/** parse_logread_timestamp of the LuCI controller: from the fields of a log line's date
    to seconds. Pattern matching on the line is not modelled. */
module CivilTime {

  predicate Divides(d: int, y: int)
    requires d > 0
  {
    y % d == 0
  }

  predicate IsLeap(y: int) {
    (Divides(4, y) && !Divides(100, y)) || Divides(400, y)
  }

  function DaysInMonth(y: int, m: int): int
    requires 1 <= m <= 12
  {
    if m == 2 then if IsLeap(y) then 29 else 28
    else if m == 4 || m == 6 || m == 9 || m == 11 then 30
    else 31
  }

  // ---------- the reference: section 4.16 of IEEE Std 1003.1-2017 ----------

  /** Day of the year, counted from 0, by the usual table. */
  function YearDay(y: int, m: int, d: int): int
    requires 1 <= m <= 12
  {
    [0, 31, 59, 90, 120, 151, 181, 212, 243, 273, 304, 334][m - 1]
    + (if m > 2 && IsLeap(y) then 1 else 0) + d - 1
  }

  /** tm_year counts from 1900; all divisions are of non-negative numbers there. */
  function SecondsSinceEpoch(y: int, yday: int, h: int, min: int, s: int): int {
    var tmYear := y - 1900;
    s + min * 60 + h * 3600 + yday * 86400
    + (tmYear - 70) * 31536000 + ((tmYear - 69) / 4) * 86400
    - ((tmYear - 1) / 100) * 86400 + ((tmYear + 299) / 400) * 86400
  }

  /** The days of all years from 1970 up to, not including, y. */
  function DaysBeforeYear(y: int): int
    requires y >= 1970
  {
    if y == 1970 then 0 else DaysBeforeYear(y - 1) + (if IsLeap(y - 1) then 366 else 365)
  }

  /** How many multiples of d there are in the years after `from`, up to y - 1. */
  function Multiples(d: int, from: int, y: int): int
    requires d > 0
  {
    (y - from) / d
  }

  function LeapDays(y: int): int {
    Multiples(4, 1969, y) - Multiples(100, 1901, y) + Multiples(400, 1601, y)
  }

  lemma {:induction false} DaysFormula(y: int)
    requires y >= 1970
    ensures DaysBeforeYear(y) == (y - 1970) * 365 + LeapDays(y)
  {
    if y > 1970 {
      DaysFormula(y - 1);
      LeapStep(y);
      hide LeapDays, IsLeap;
    }
  }

  /** The quotients together grow exactly in the year after a leap year. */
  lemma LeapStep(y: int)
    ensures LeapDays(y) - LeapDays(y - 1) == if IsLeap(y - 1) then 1 else 0
  {
    hide Multiples, Divides;
    Multiples4(y);
    Multiples100(y);
    Multiples400(y);
    Divides400(y - 1);
    Divides100(y - 1);
  }

  lemma Multiples4(y: int)
    ensures Multiples(4, 1969, y) == Multiples(4, 1969, y - 1) + if Divides(4, y - 1) then 1 else 0
  {
  }

  lemma Multiples100(y: int)
    ensures Multiples(100, 1901, y) == Multiples(100, 1901, y - 1) + if Divides(100, y - 1) then 1 else 0
  {
  }

  lemma Multiples400(y: int)
    ensures Multiples(400, 1601, y) == Multiples(400, 1601, y - 1) + if Divides(400, y - 1) then 1 else 0
  {
  }

  lemma Divides400(y: int)
    ensures Divides(400, y) ==> Divides(100, y)
  {
  }

  lemma Divides100(y: int)
    ensures Divides(100, y) ==> Divides(4, y)
  {
  }

  // ---------- the loops ----------

  method Timestamp(year: int, month: int, day: int, hour: int, min: int, sec: int) returns (t: int)
    requires 1 <= month <= 12
    ensures year >= 1970 ==> t == SecondsSinceEpoch(year, YearDay(year, month, day), hour, min, sec)
    ensures year < 1970 ==> t == YearDay(year, month, day) * 86400 + hour * 3600 + min * 60 + sec
  {
    var days := 0;
    var y := 1970;
    while y <= year - 1
      invariant 1970 <= y && (year >= 1970 ==> y <= year) && days == DaysBeforeYear(y)
      invariant year < 1970 ==> y == 1970
      decreases year - y
    {
      if IsLeap(y) {
        days := days + 366;
      } else {
        days := days + 365;
      }
      y := y + 1;
    }
    ghost var base := days;
    var m := 1;
    while m <= month - 1
      invariant 1 <= m <= month && days == base + YearDay(year, m, 1)
    {
      if m == 2 {
        if IsLeap(year) {
          days := days + 29;
        } else {
          days := days + 28;
        }
      } else if m == 4 || m == 6 || m == 9 || m == 11 {
        days := days + 30;
      } else {
        days := days + 31;
      }
      m := m + 1;
    }
    days := days + day - 1;
    if year >= 1970 {
      DaysFormula(year);
    }
    return days * 86400 + hour * 3600 + min * 60 + sec;
  }

  /** The standard defines its formula from 1970 on only. Before that the year loop does
      not run, and the result never equals the formula (read with floored quotients). */
  lemma BeforeEpochDiffers(y: int, yday: int, h: int, min: int, s: int)
    requires 0 <= y < 1970
    ensures yday * 86400 + h * 3600 + min * 60 + s != SecondsSinceEpoch(y, yday, h, min, s)
  {
    var tm := y - 1900;
    assert (tm - 70) * 365 + (tm - 69) / 4 - (tm - 1) / 100 + (tm + 299) / 400 < 0;
  }

  datatype Date = Date(year: int, month: int, day: int, hour: int, min: int, sec: int)

  predicate ValidDate(d: Date) {
    && d.year >= 1970 && 1 <= d.month <= 12 && 1 <= d.day <= DaysInMonth(d.year, d.month)
    && 0 <= d.hour < 24 && 0 <= d.min < 60 && 0 <= d.sec < 60
  }

  predicate Earlier(a: Date, b: Date) {
    a.year < b.year || (a.year == b.year &&
      (a.month < b.month || (a.month == b.month &&
        (a.day < b.day || (a.day == b.day &&
          (a.hour < b.hour || (a.hour == b.hour &&
            (a.min < b.min || (a.min == b.min && a.sec < b.sec)))))))))
  }

  function Seconds(d: Date): int
    requires 1 <= d.month <= 12
  {
    SecondsSinceEpoch(d.year, YearDay(d.year, d.month, d.day), d.hour, d.min, d.sec)
  }

  lemma {:induction false} YearsGrow(y: int, z: int)
    requires 1970 <= y < z
    ensures DaysBeforeYear(z) >= DaysBeforeYear(y) + (if IsLeap(y) then 366 else 365)
  {
    if y < z - 1 {
      YearsGrow(y, z - 1);
    }
  }

  lemma {:induction false} MonthsGrow(y: int, m: int, n: int)
    requires 1 <= m < n <= 12
    ensures YearDay(y, n, 1) >= YearDay(y, m, 1) + DaysInMonth(y, m)
  {
    if m < n - 1 {
      MonthsGrow(y, m, n - 1);
    }
  }

  lemma YearDayBound(d: Date)
    requires ValidDate(d)
    ensures 0 <= YearDay(d.year, d.month, d.day) < if IsLeap(d.year) then 366 else 365
  {
  }

  /** The day number of a date, and its seconds within that day. */
  lemma SecondsByDay(d: Date)
    requires ValidDate(d)
    ensures Seconds(d) == (DaysBeforeYear(d.year) + YearDay(d.year, d.month, d.day)) * 86400
                          + d.hour * 3600 + d.min * 60 + d.sec
  {
    DaysFormula(d.year);
  }

  /** Timestamps compare as the dates do, which is what the comparison with the time of
      the last clearing of the log relies on. */
  lemma TimestampsOrdered(a: Date, b: Date)
    requires ValidDate(a) && ValidDate(b)
    ensures Earlier(a, b) <==> Seconds(a) < Seconds(b)
  {
    if Earlier(a, b) {
      EarlierIsLess(a, b);
    } else if Earlier(b, a) {
      EarlierIsLess(b, a);
    } else {
      assert a == b;
    }
  }

  lemma EarlierIsLess(a: Date, b: Date)
    requires ValidDate(a) && ValidDate(b) && Earlier(a, b)
    ensures Seconds(a) < Seconds(b)
  {
    SecondsByDay(a);
    SecondsByDay(b);
    YearDayBound(a);
    YearDayBound(b);
    if a.year < b.year {
      YearsGrow(a.year, b.year);
    } else if a.month < b.month {
      MonthsGrow(a.year, a.month, b.month);
    }
  }

  lemma KnownDays()
    ensures YearDay(1970, 1, 1) == 0 && YearDay(2000, 2, 29) == 59 && YearDay(2024, 3, 1) == 60
  {
    assert Divides(4, 2024) && !Divides(100, 2024);
    hide Divides;
  }

  /** Three known times: the epoch, the end of February 2000, and a time in 2024. */
  lemma EpochExample()
    ensures Seconds(Date(1970, 1, 1, 0, 0, 0)) == 0
  {
    hide YearDay;
    KnownDays();
  }

  lemma LeapDayExample()
    ensures Seconds(Date(2000, 2, 29, 12, 0, 0)) == 951_825_600
  {
    hide YearDay;
    KnownDays();
  }

  lemma AfterLeapDayExample()
    ensures Seconds(Date(2024, 3, 1, 0, 0, 1)) == 1_709_251_201
  {
    hide YearDay;
    KnownDays();
  }
}
