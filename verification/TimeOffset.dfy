/** Applying a zone offset to a date and time (`time.rb`). */
module TimeOffset {
  import opened Civil
  import Arith

  datatype Moment = Moment(date: Date, hour: int, min: int, sec: int)

  predicate ValidMoment(t: Moment) {
    OnCalendar(t.date, Gregorian) && 0 <= t.hour < 24 && 0 <= t.min < 60 && 0 <= t.sec < 60
  }

  function SecondOfDay(t: Moment): int { t.hour * 3600 + t.min * 60 + t.sec }

  /** Seconds on one line through all days. */
  function Instant(t: Moment): int { CivilToJd(t.date, Gregorian) * 86400 + SecondOfDay(t) }

  /** month_days */
  function MonthDays(y: int, m: int): int { DaysInMonth(GregorianLeap(y), m) }

  /** How many days the clock time moves when off seconds are taken from it. */
  function DayShift(t: Moment, off: int): int { (SecondOfDay(t) - off) / 86400 }

  /** The day stays in its month or moves just over its edge. */
  predicate OneMonthEdge(t: Moment, off: int) {
    0 <= t.date.d + DayShift(t, off) <= MonthDays(t.date.y, t.date.m) + 1
  }

  /** One line of apply_offset: the remainder of off modulo n goes into v, and its carry back into off. */
  method CarryUp(v: int, off: int, n: int) returns (v': int, off': int)
    requires n > 0 && 0 <= v < n && 0 <= off
    ensures n * off' + v' == v + off && 0 <= v' < n && 0 <= off'
  {
    v' := v;
    var o := off % n;
    off' := off / n;
    DivMod(off, n);
    if o != 0 {
      v' := v + o;
      DivMod(v', n);
      o, v' := v' / n, v' % n;
      off' := off' + o;
    }
  }

  method CarryDown(v: int, off: int, n: int) returns (v': int, off': int)
    requires n > 0 && 0 <= v < n && 0 <= off
    ensures v' - n * off' == v - off && 0 <= v' < n && 0 <= off'
  {
    v' := v;
    var o := off % n;
    off' := off / n;
    DivMod(off, n);
    if o != 0 {
      v' := v - o;
      DivMod(v', n);
      o, v' := v' / n, v' % n;
      assert o <= 0 by { NotPositive(o, n, v - off % n); }
      off' := off' - o;
    }
  }

  lemma NotPositive(o: int, n: int, v: int)
    requires n > 0 && v < n && o == v / n
    ensures o <= 0
  {
    DivMod(v, n);
    Arith.MulCancel(o, 0, n);
  }

  lemma DivMod(x: int, n: int)
    requires n > 0
    ensures x == n * (x / n) + x % n && 0 <= x % n < n && (x >= 0 ==> x / n >= 0)
  {
    if x >= 0 {
      Arith.DivAtLeast(x, n, 0);
    }
  }

  /** apply_offset: off is taken from the time; exact when the day moves at most one past the edge of its month. */
  method ApplyOffset(t: Moment, offset: int) returns (r: Moment)
    requires ValidMoment(t)
    ensures ValidMoment(r)
    ensures SecondOfDay(r) == (SecondOfDay(t) - offset) % 86400
    ensures Instant(r) == Instant(t) - offset <==> OneMonthEdge(t, offset)
  {
    hide CivilToJd, GregorianLeap, DaysInMonth;
    var year, mon, day, hour, min, sec, off := t.date.y, t.date.m, t.date.d, t.hour, t.min, t.sec, offset;
    if off < 0 {
      off := -off;
      sec, off := CarryUp(sec, off, 60);
      min, off := CarryUp(min, off, 60);
      hour, off := CarryUp(hour, off, 24);
      Carried(SecondOfDay(t) - offset, off, hour * 3600 + min * 60 + sec);
      if off != 0 {
        day := day + off;
        if MonthDays(year, mon) < day {
          mon := mon + 1;
          if 12 < mon {
            mon := 1;
            year := year + 1;
          }
          day := 1;
        }
      }
      LaterDay(t.date, off, Date(year, mon, day));
    } else if 0 < off {
      sec, off := CarryDown(sec, off, 60);
      min, off := CarryDown(min, off, 60);
      hour, off := CarryDown(hour, off, 24);
      Carried(SecondOfDay(t) - offset, -off, hour * 3600 + min * 60 + sec);
      if off != 0 {
        day := day - off;
        if day < 1 {
          mon := mon - 1;
          if mon < 1 {
            year := year - 1;
            mon := 12;
          }
          day := MonthDays(year, mon);
        }
      }
      EarlierDay(t.date, off, Date(year, mon, day));
    } else {
      Carried(SecondOfDay(t), 0, SecondOfDay(t));
    }
    r := Moment(Date(year, mon, day), hour, min, sec);
  }

  lemma Carried(n: int, days: int, s: int)
    requires n == 86400 * days + s && 0 <= s < 86400
    ensures n / 86400 == days && n % 86400 == s
  {
  }

  /** Going days forward: past the end of the month the result is the first of the next. */
  lemma LaterDay(date: Date, days: int, r: Date)
    requires OnCalendar(date, Gregorian) && days >= 0
    requires r == if days == 0 || date.d + days <= MonthDays(date.y, date.m) then Date(date.y, date.m, date.d + days)
                  else if date.m < 12 then Date(date.y, date.m + 1, 1) else Date(date.y + 1, 1, 1)
    ensures OnCalendar(r, Gregorian)
    ensures CivilToJd(r, Gregorian) == CivilToJd(date, Gregorian) + days <==>
            date.d + days <= MonthDays(date.y, date.m) + 1
  {
    hide CivilToJd;
    var last := Date(date.y, date.m, MonthDays(date.y, date.m));
    NextDayNumber(last, Gregorian);
    SameMonth(date, last.d);
    if date.d + days <= last.d {
      SameMonth(date, date.d + days);
    }
  }

  lemma SameMonth(date: Date, d: int)
    requires 1 <= date.m <= 12
    ensures CivilToJd(Date(date.y, date.m, d), Gregorian) == CivilToJd(date, Gregorian) + d - date.d
  {
  }

  /** Going days back: before the month the result is the last of the one before. */
  lemma EarlierDay(date: Date, days: int, r: Date)
    requires OnCalendar(date, Gregorian) && days >= 0
    requires r == if days == 0 || date.d - days >= 1 then Date(date.y, date.m, date.d - days)
                  else if date.m > 1 then Date(date.y, date.m - 1, MonthDays(date.y, date.m - 1))
                  else Date(date.y - 1, 12, MonthDays(date.y - 1, 12))
    ensures OnCalendar(r, Gregorian)
    ensures CivilToJd(r, Gregorian) == CivilToJd(date, Gregorian) - days <==> date.d - days >= 0
  {
    hide CivilToJd;
    if date.d - days >= 1 {
      SameMonth(date, date.d - days);
    } else {
      SameMonth(date, 1);
      NextDayNumber(r, Gregorian);
    }
  }

  /** Within a day, as every real zone is, the instant is always kept. */
  lemma WithinADay(t: Moment, off: int)
    requires ValidMoment(t) && -86400 < off < 86400
    ensures OneMonthEdge(t, off)
  {
    assert -1 <= DayShift(t, off) <= 1;
  }

  /** From the last day of a month, an offset of two days, which `-48:00` asks for, lands a day short. */
  lemma TwoDaysShort(t: Moment)
    requires ValidMoment(t) && t.date.d == MonthDays(t.date.y, t.date.m)
    ensures !OneMonthEdge(t, -172800)
  {
    assert DayShift(t, -172800) == 2;
  }

  const January31 := Moment(Date(2009, 1, 31), 0, 0, 0)

  lemma January31Short()
    ensures ValidMoment(January31) && !OneMonthEdge(January31, -172800)
  {
    hide OneMonthEdge, CivilToJd, JdToCivil, GregorianLeap, DayShift, SecondOfDay;
    TwoDaysShort(January31);
  }
}
