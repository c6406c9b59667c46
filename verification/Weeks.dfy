/** ISO week dates and the first day of a year (`date.rb`). */
module Weeks {
  import opened Wrappers
  import opened Civil

  /** A reform that leaves every year its 1 January, and at least a week before the reform in its year. */
  predicate MidYear(sg: Start) {
    sg.Reform? ==>
      && sg.day >= FIRST_REFORM
      && JdToCivil(sg.day - 7, Julian).y == JdToCivil(sg.day - 1, Julian).y == ReformYear(sg)
  }

  function ReformYear(sg: Start): int
    requires sg.Reform?
  {
    JdToCivil(sg.day, Gregorian).y
  }

  /** The calendar in force on 1 January. */
  function YearStyle(y: int, sg: Start): Start {
    if !sg.Reform? then sg else if y <= ReformYear(sg) then Julian else Gregorian
  }

  /** The two named reforms, with the last day of the old calendar and the first of the new one. */
  lemma NamedReforms()
    ensures MidYear(ITALY) && ReformYear(ITALY) == 1582
    ensures JdToCivil(2299160, ITALY) == Date(1582, 10, 4) && JdToCivil(2299161, ITALY) == Date(1582, 10, 15)
    ensures MidYear(ENGLAND) && ReformYear(ENGLAND) == 1752
    ensures JdToCivil(2361221, ENGLAND) == Date(1752, 9, 2) && JdToCivil(2361222, ENGLAND) == Date(1752, 9, 14)
  {
    hide JdToCivil;
    DateOf(Date(1582, 9, 28), 2299154, Julian);
    ReformIs(ITALY, Date(1582, 10, 4), Date(1582, 10, 15));
    DateOf(Date(1752, 8, 27), 2361215, Julian);
    ReformIs(ENGLAND, Date(1752, 9, 2), Date(1752, 9, 14));
  }

  lemma ReformIs(sg: Start, last: Date, first: Date)
    requires sg.Reform? && OnCalendar(last, Julian) && CivilToJd(last, Julian) == sg.day - 1
    requires OnCalendar(first, Gregorian) && CivilToJd(first, Gregorian) == sg.day
    ensures JdToCivil(sg.day - 1, sg) == JdToCivil(sg.day - 1, Julian) == last
    ensures JdToCivil(sg.day, sg) == JdToCivil(sg.day, Gregorian) == first
  {
    hide JdToCivil, CivilToJd, OnCalendar;
    DateOf(last, sg.day - 1, Julian);
    DateOf(first, sg.day, Gregorian);
    OnItsCalendar(sg.day - 1, sg);
    OnItsCalendar(sg.day, sg);
  }

  lemma DateOf(date: Date, jd: int, sg: Start)
    requires !sg.Reform? && OnCalendar(date, sg) && CivilToJd(date, sg) == jd
    ensures JdToCivil(jd, sg) == date
  {
    hide CivilToJd, JdToCivil;
    CivilRoundTrip(date, sg);
  }

  /** find_fdoy: the first day of January that exists. */
  method FindFdoy(y: int, sg: Start) returns (j: Option<int>)
    ensures j == None ==> forall d :: 1 <= d <= 31 ==> ValidCivil(Date(y, 1, d), sg) == None
    ensures j.Some? ==> exists d ::
              && 1 <= d <= 31 && ValidCivil(Date(y, 1, d), sg) == j
              && forall k :: 1 <= k < d ==> ValidCivil(Date(y, 1, k), sg) == None
    ensures MidYear(sg) ==> j == Some(FirstDay(y, sg))
  {
    hide ValidCivil, CivilToJd, JdToCivil, MidYear;
    if MidYear(sg) {
      FirstDayIs(y, sg);
    }
    j := None;
    var d := 1;
    while d <= 31
      invariant 1 <= d <= 32 && j == None
      invariant forall k :: 1 <= k < d ==> ValidCivil(Date(y, 1, k), sg) == None
    {
      j := ValidCivil(Date(y, 1, d), sg);
      if j.Some? {
        return;
      }
      d := d + 1;
    }
  }

  function FirstDay(y: int, sg: Start): int { CivilToJd(Date(y, 1, 1), sg) }

  /** A date of the calendar in force on its day is a date of sg, with the same number. */
  lemma SameNumber(date: Date, sg: Start, style: Start)
    requires !style.Reform? && OnCalendar(date, style) && (sg.Reform? ==> sg.day >= FIRST_REFORM)
    requires Style(CivilToJd(date, style), sg) == style
    ensures CivilToJd(date, sg) == CivilToJd(date, style) && ValidCivil(date, sg) == Some(CivilToJd(date, sg))
  {
    hide CivilToJd, JdToCivil, OnCalendar;
    var jd := CivilToJd(date, style);
    CivilRoundTrip(date, style);
    OnItsCalendar(jd, sg);
    JdRoundTrip(jd, sg);
  }

  lemma FirstDayIs(y: int, sg: Start)
    requires MidYear(sg)
    ensures FirstDay(y, sg) == FirstDay(y, YearStyle(y, sg)) && ValidCivil(Date(y, 1, 1), sg) == Some(FirstDay(y, sg))
    ensures sg.Reform? ==> if y <= ReformYear(sg) then FirstDay(y, sg) <= sg.day - 7 else FirstDay(y, sg) > sg.day
  {
    hide CivilToJd, JdToCivil, ValidCivil;
    if sg.Reform? {
      var r := ReformYear(sg);
      PureYearHolds(sg.day - 7, Julian);
      PureYearHolds(sg.day, Gregorian);
      PureYearsApart(y - 1, r, Julian);
      PureYearsApart(r, y, Gregorian);
    }
    SameNumber(Date(y, 1, 1), sg, YearStyle(y, sg));
  }

  lemma PureYearHolds(jd: int, sg: Start)
    requires !sg.Reform?
    ensures var y := JdToCivil(jd, sg).y; FirstDay(y, sg) <= jd < FirstDay(y + 1, sg)
  {
    hide CivilToJd, JdToCivil, OnCalendar;
    OnItsCalendar(jd, sg);
    JdRoundTrip(jd, sg);
    WithinYear(JdToCivil(jd, sg), sg);
  }

  lemma {:induction false} PureYearsApart(y: int, z: int, sg: Start)
    requires !sg.Reform?
    ensures y < z ==> FirstDay(y + 1, sg) <= FirstDay(z, sg)
    decreases z - y
  {
    hide FirstDay;
    if y + 1 < z {
      PureYearsApart(y, z - 1, sg);
      WithinYear(Date(z - 1, 1, 1), sg);
    }
  }

  /** Every day lies between the first days of its year and of the next, on either side of the reform. */
  lemma YearHolds(jd: int, sg: Start)
    requires MidYear(sg)
    ensures var y := JdToCivil(jd, sg).y; FirstDay(y, sg) <= jd < FirstDay(y + 1, sg)
  {
    hide CivilToJd, JdToCivil, FirstDay, ValidCivil, OnCalendar;
    var y, style := JdToCivil(jd, sg).y, Style(jd, sg);
    OnItsCalendar(jd, sg);
    PureYearHolds(jd, style);
    FirstDayIs(y, sg);
    FirstDayIs(y + 1, sg);
    if sg.Reform? {
      var r := ReformYear(sg);
      PureYearHolds(sg.day - 1, Julian);
      PureYearHolds(sg.day, Gregorian);
      PureYearsApart(r, y, Julian);
      PureYearsApart(y, r, Gregorian);
    }
  }

  /** The lengths of years: only that of the reform is cut short. */
  lemma YearLength(y: int, sg: Start)
    requires MidYear(sg)
    ensures var days := FirstDay(y + 1, sg) - FirstDay(y, sg);
            && 8 <= days <= 368
            && ((sg.Reform? && y == ReformYear(sg)) || days == if Leap(y, YearStyle(y, sg)) then 366 else 365)
  {
    hide CivilToJd, JdToCivil, FirstDay, ValidCivil, OnCalendar, Leap;
    FirstDayIs(y, sg);
    FirstDayIs(y + 1, sg);
    YearDays(y, YearStyle(y, sg));
    if sg.Reform? && y == ReformYear(sg) {
      ReformIsLate(sg);
      CalendarsApart(y + 1);
      YearDays(y, Julian);
    }
  }

  lemma YearDays(y: int, sg: Start)
    requires !sg.Reform?
    ensures FirstDay(y + 1, sg) - FirstDay(y, sg) == if Leap(y, sg) then 366 else 365
  {
    hide FirstDay;
    WithinYear(Date(y, 1, 1), sg);
  }

  lemma ReformIsLate(sg: Start)
    requires sg.Reform? && sg.day >= FIRST_REFORM
    ensures ReformYear(sg) >= 0
  {
    hide JdToCivil, FirstDay;
    PureYearHolds(sg.day, Gregorian);
    PureYearsApart(ReformYear(sg), 0, Gregorian);
    assert FirstDay(0, Gregorian) < FIRST_REFORM by { GregorianZero(); }
  }

  lemma GregorianZero()
    ensures FirstDay(0, Gregorian) == 1721060
  {
  }

  /** From the year 0 on the Gregorian year starts at most two days after the Julian one. */
  lemma CalendarsApart(y: int)
    requires y >= 1
    ensures FirstDay(y, Gregorian) <= FirstDay(y, Julian) + 2
  {
    hide CivilToJd;
    CivilToJdIs(Date(y, 1, 1), Gregorian);
    CivilToJdIs(Date(y, 1, 1), Julian);
  }

  /** A date lies between the first days of its year and of the next. */
  lemma WithinYear(date: Date, sg: Start)
    requires !sg.Reform? && OnCalendar(date, sg)
    ensures FirstDay(date.y, sg) <= CivilToJd(date, sg) < FirstDay(date.y + 1, sg)
    ensures FirstDay(date.y + 1, sg) - FirstDay(date.y, sg) == if Leap(date.y, sg) then 366 else 365
  {
    hide CivilToJd, Pack, Shift, YearStart, Leap;
    var first, next := Date(date.y, 1, 1), Date(date.y + 1, 1, 1);
    CivilToJdIs(date, sg);
    CivilToJdIs(first, sg);
    CivilToJdIs(next, sg);
    DayInYear(date, Leap(date.y, sg));
    DayInYear(first, Leap(date.y, sg));
    MarchYear(date.y, sg);
    JanuaryFirst(date.y);
    JanuaryFirst(date.y + 1);
  }

  /** A date's number within the years that begin in March. */
  lemma DayInYear(date: Date, leap: bool)
    requires 1 <= date.m <= 12 && 1 <= date.d <= DaysInMonth(leap, date.m)
    ensures date.m <= 2 ==> 429 <= Pack(date) - YearStart(date.y + 4715) <= (if leap then 488 else 487)
    ensures date.m > 2 ==> 123 <= Pack(date) - YearStart(date.y + 4716) <= 428
  {
    hide YearStart, MonthStart;
    MonthStarts(E(date));
  }

  lemma JanuaryFirst(y: int)
    ensures Pack(Date(y, 1, 1)) == YearStart(y + 4715) + 429
  {
    hide YearStart, MonthStart;
    MonthStarts(14);
  }

  // ---------------------------------------------------------------- week dates

  /** commercial_to_jd */
  function CommercialToJd(y: int, w: int, d: int, sg: Start): int {
    var j := FirstDay(y, sg) + 3;
    j - j % 7 + 7 * (w - 1) + (d - 1)
  }

  datatype Commercial = Commercial(y: int, w: int, d: int)

  /** jd_to_commercial */
  function JdToCommercial(jd: int, sg: Start): Commercial {
    var a := JdToCivil(jd - 3, sg).y;
    var y := if jd >= CommercialToJd(a + 1, 1, 1, sg) then a + 1 else a;
    var w := 1 + (jd - CommercialToJd(y, 1, 1, sg)) / 7;
    var d := (jd + 1) % 7;
    Commercial(y, w, if d == 0 then 7 else d)
  }

  /** Monday of week 1. */
  function WeekOne(y: int, sg: Start): int { CommercialToJd(y, 1, 1, sg) }

  /** Week 1 starts on a Monday and holds 4 January; a year has 52 or 53 weeks, that of the reform maybe fewer. */
  lemma WeekOneIs(y: int, sg: Start)
    requires MidYear(sg)
    ensures WeekOne(y, sg) % 7 == 0 && WeekOne(y, sg) <= FirstDay(y, sg) + 3 < WeekOne(y, sg) + 7
    ensures var days := WeekOne(y + 1, sg) - WeekOne(y, sg);
            0 < days <= 53 * 7 && ((sg.Reform? && y == ReformYear(sg)) || days == 52 * 7 || days == 53 * 7)
  {
    hide CivilToJd, FirstDay, MidYear, ReformYear, YearStyle;
    YearLength(y, sg);
    MondayBefore(FirstDay(y, sg) + 3);
    MondayBefore(FirstDay(y + 1, sg) + 3);
    var a, b := WeekOne(y, sg), WeekOne(y + 1, sg);
    assert (b - a) % 7 == 0;
  }

  lemma MondayBefore(jd: int)
    ensures var monday := jd - jd % 7; monday % 7 == 0 && monday <= jd < monday + 7
  {
  }

  /** The week date of a day: its year is the one whose weeks hold the day, and it leads back to the day. */
  lemma CommercialRoundTrip(jd: int, sg: Start)
    requires MidYear(sg)
    ensures var c := JdToCommercial(jd, sg);
            && WeekOne(c.y, sg) <= jd < WeekOne(c.y + 1, sg) && 1 <= c.w <= 53 && 1 <= c.d <= 7
            && CommercialToJd(c.y, c.w, c.d, sg) == jd == WeekOne(c.y, sg) + 7 * (c.w - 1) + c.d - 1
  {
    hide CivilToJd, JdToCivil, FirstDay, MidYear, ReformYear, YearStyle;
    var a := JdToCivil(jd - 3, sg).y;
    YearHolds(jd - 3, sg);
    YearLength(a + 1, sg);
    WeekOneIs(a, sg);
    WeekOneIs(a + 1, sg);
    WeekOneIs(a + 2, sg);
    var y := JdToCommercial(jd, sg).y;
    InWeek(jd, WeekOne(y, sg));
  }

  lemma InWeek(jd: int, monday: int)
    requires monday % 7 == 0 && monday <= jd
    ensures var w, d := (jd - monday) / 7, (jd + 1) % 7;
            monday + 7 * w + (if d == 0 then 7 else d) - 1 == jd
  {
  }

  /** The first day of the Unix epoch, a Thursday: 1970-W01-4. */
  lemma Epoch()
    ensures JdToCivil(2440588, Gregorian) == Date(1970, 1, 1)
    ensures JdToCommercial(2440588, Gregorian) == Commercial(1970, 1, 4)
  {
    hide JdToCivil, CivilToJd;
    EpochDays();
    DateOf(Date(1970, 1, 1), 2440588, Gregorian);
    DateOf(Date(1969, 12, 29), 2440585, Gregorian);
  }

  lemma EpochDays()
    ensures CivilToJd(Date(1969, 12, 29), Gregorian) == 2440585
    ensures FirstDay(1969, Gregorian) == 2440223
    ensures FirstDay(1970, Gregorian) == CivilToJd(Date(1970, 1, 1), Gregorian) == 2440588
  {
  }

  /** Only one week date leads to a day. */
  lemma CommercialUnique(y: int, w: int, d: int, jd: int, sg: Start)
    requires MidYear(sg) && CommercialToJd(y, w, d, sg) == jd && 1 <= d <= 7 && 1 <= w && jd < WeekOne(y + 1, sg)
    ensures JdToCommercial(jd, sg) == Commercial(y, w, d)
  {
    hide CivilToJd, JdToCivil, FirstDay, JdToCommercial, MidYear, ReformYear;
    var c := JdToCommercial(jd, sg);
    CommercialRoundTrip(jd, sg);
    YearsApart(c.y, y, sg);
    YearsApart(y, c.y, sg);
    WeekOneIs(y, sg);
  }

  /** Later years start later. */
  lemma {:induction false} YearsApart(y: int, z: int, sg: Start)
    requires MidYear(sg)
    ensures y < z ==> WeekOne(y + 1, sg) <= WeekOne(z, sg)
    decreases z - y
  {
    hide WeekOne, MidYear, ReformYear;
    if y + 1 < z {
      YearsApart(y, z - 1, sg);
      WeekOneIs(z - 1, sg);
    }
  }

  /** The week year is the calendar year of the week's Thursday. */
  lemma ThursdayYear(jd: int, sg: Start)
    requires MidYear(sg)
    ensures var c := JdToCommercial(jd, sg); JdToCivil(jd - (c.d - 1) + 3, sg).y == c.y
  {
    hide CivilToJd, JdToCivil, FirstDay, JdToCommercial, MidYear, ReformYear;
    var c := JdToCommercial(jd, sg);
    var thursday := jd - (c.d - 1) + 3;
    var y := JdToCivil(thursday, sg).y;
    CommercialRoundTrip(jd, sg);
    WeekOneIs(c.y, sg);
    WeekOneIs(c.y + 1, sg);
    YearHolds(thursday, sg);
    FirstDaysApart(y, c.y, sg);
    FirstDaysApart(c.y, y, sg);
  }

  lemma {:induction false} FirstDaysApart(y: int, z: int, sg: Start)
    requires MidYear(sg)
    ensures y < z ==> FirstDay(y + 1, sg) <= FirstDay(z, sg)
    decreases z - y
  {
    hide FirstDay, MidYear, ReformYear, YearStyle;
    if y + 1 < z {
      FirstDaysApart(y, z - 1, sg);
      YearLength(z - 1, sg);
    }
  }
}
