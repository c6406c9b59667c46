/** Days counted back from the end of a month, and month arithmetic (`date.rb`). */
module Months {
  import opened Wrappers
  import opened Civil

  // ---------------------------------------------------------------- the end of a month

  predicate Exists(y: int, m: int, d: int, sg: Start) { ValidCivil(Date(y, m, d), sg).Some? }

  ghost predicate NoDay(y: int, m: int, sg: Start) { forall d :: 1 <= d <= 31 ==> !Exists(y, m, d, sg) }

  /** j is the last day of the month. */
  ghost predicate LastDay(y: int, m: int, sg: Start, j: int) {
    var d := JdToCivil(j, sg).d;
    1 <= d <= 31 && ValidCivil(Date(y, m, d), sg) == Some(j) && forall k :: d < k <= 31 ==> !Exists(y, m, k, sg)
  }

  lemma OneLastDay(y: int, m: int, sg: Start, i: int, j: int)
    requires LastDay(y, m, sg, i) && LastDay(y, m, sg, j)
    ensures i == j
  {
    hide CivilToJd, JdToCivil;
    assert Exists(y, m, JdToCivil(i, sg).d, sg) && Exists(y, m, JdToCivil(j, sg).d, sg);
  }

  /** find_ldom: the last day of a month that exists. */
  method FindLdom(y: int, m: int, sg: Start) returns (j: Option<int>)
    ensures j == None <==> NoDay(y, m, sg)
    ensures j.Some? ==> LastDay(y, m, sg, j.value)
  {
    hide CivilToJd, JdToCivil;
    j := None;
    var d := 31;
    while d >= 1
      invariant 0 <= d <= 31 && j == None
      invariant forall k :: d < k <= 31 ==> !Exists(y, m, k, sg)
    {
      j := ValidCivil(Date(y, m, d), sg);
      if j.Some? {
        assert Exists(y, m, d, sg);
        return;
      }
      d := d - 1;
    }
  }

  /** What _valid_civil? answers: a day number, nil, or the NoMethodError of a month without days. */
  datatype Checked = Day(jd: int) | Invalid | Failed

  function FromOption(r: Option<int>): Checked { if r.Some? then Day(r.value) else Invalid }

  /** _valid_civil? for every month and day: a negative month counts back from the end of the year, a negative day from
      the last day of the month, by day numbers. */
  method CheckCivil(y: int, m: int, d: int, sg: Start) returns (r: Checked)
    ensures var month := if m < 0 then m + 13 else m;
            && (d >= 0 ==> r == FromOption(ValidCivil(Date(y, month, d), sg)))
            && (d < 0 ==> (r == Failed <==> NoDay(y, month, sg)))
            && (d < 0 ==> forall last :: LastDay(y, month, sg, last) ==> r == CountedBack(y, month, last + d + 1, sg))
  {
    hide CivilToJd, JdToCivil, ValidCivil, LastDay, NoDay, Exists;
    var month := if m < 0 then m + 13 else m;
    if d >= 0 {
      return FromOption(ValidCivil(Date(y, month, d), sg));
    }
    var j := FindLdom(y, month, sg);
    if j == None {
      NoLastDay(y, month, sg);
      return Failed;
    }
    forall last | LastDay(y, month, sg, last) ensures last == j.value {
      OneLastDay(y, month, sg, last, j.value);
    }
    var date := JdToCivil(j.value + d + 1, sg);
    if date.y != y || date.m != month {
      return Invalid;
    }
    r := FromOption(ValidCivil(Date(y, month, date.d), sg));
  }

  lemma NoLastDay(y: int, m: int, sg: Start)
    requires NoDay(y, m, sg)
    ensures forall j :: !LastDay(y, m, sg, j)
  {
    hide CivilToJd, JdToCivil, ValidCivil;
    forall j ensures !LastDay(y, m, sg, j) {
      assert LastDay(y, m, sg, j) ==> Exists(y, m, JdToCivil(j, sg).d, sg);
    }
  }

  /** The day jd if it is in the month, and if its date leads back to a day. */
  function CountedBack(y: int, m: int, jd: int, sg: Start): Checked {
    var date := JdToCivil(jd, sg);
    if date.y != y || date.m != m then Invalid else FromOption(ValidCivil(date, sg))
  }

  /** For every start for which day numbers survive, the answer is the day itself. */
  lemma CountedBackIs(y: int, m: int, jd: int, sg: Start)
    requires sg.Reform? ==> sg.day >= FIRST_REFORM
    ensures CountedBack(y, m, jd, sg) ==
            if JdToCivil(jd, sg).y == y && JdToCivil(jd, sg).m == m then Day(jd) else Invalid
  {
    hide CivilToJd, JdToCivil, ValidCivil;
    ValidCivilIff(JdToCivil(jd, sg), sg, jd);
  }

  /** In the pure calendars day -1 is the last day of the month, -2 the one before, and so on to the first. */
  lemma CountedBackPure(y: int, m: int, d: int, sg: Start, last: int)
    requires !sg.Reform? && 1 <= m <= 12 && d < 0 && LastDay(y, m, sg, last)
    ensures var days := DaysInMonth(Leap(y, sg), m);
            CountedBack(y, m, last + d + 1, sg) ==
            if -days <= d then Day(CivilToJd(Date(y, m, days + d + 1), sg)) else Invalid
  {
    hide CivilToJd, JdToCivil, ValidCivil, Leap;
    var days, jd := DaysInMonth(Leap(y, sg), m), last + d + 1;
    LastDayPure(y, m, sg, last);
    CountedBackIs(y, m, jd, sg);
    if -days <= d {
      SameMonth(y, m, days, days + d + 1, sg);
      CivilRoundTrip(Date(y, m, days + d + 1), sg);
    } else {
      var date := JdToCivil(jd, sg);
      OnItsCalendar(jd, sg);
      JdRoundTrip(jd, sg);
      SameMonth(y, m, days, date.d, sg);
    }
  }

  lemma LastDayPure(y: int, m: int, sg: Start, last: int)
    requires !sg.Reform? && 1 <= m <= 12 && LastDay(y, m, sg, last)
    ensures last == CivilToJd(Date(y, m, DaysInMonth(Leap(y, sg), m)), sg)
  {
    hide CivilToJd, JdToCivil, Leap;
    var days := DaysInMonth(Leap(y, sg), m);
    var d := JdToCivil(last, sg).d;
    ValidIsOnCalendar(Date(y, m, d), sg);
    ValidIsOnCalendar(Date(y, m, days), sg);
    assert d < days ==> !Exists(y, m, days, sg);
  }

  /** Within a month of a pure calendar, day numbers and days of the month run in step. */
  lemma SameMonth(y: int, m: int, d: int, e: int, sg: Start)
    requires !sg.Reform?
    ensures CivilToJd(Date(y, m, d), sg) - CivilToJd(Date(y, m, e), sg) == d - e
  {
    hide CivilToJd, YearStart, MonthStart, Shift;
    CivilToJdIs(Date(y, m, d), sg);
    CivilToJdIs(Date(y, m, e), sg);
  }

  // ---------------------------------------------------------------- month arithmetic

  /** Date#>>: the month n months on, and in it the same day or the last one before it that exists; where a reform
      leaves none, counting on below zero finds the month's last day, and where it leaves no day at all, an error. */
  method AddMonths(jd: int, n: int, sg: Start) returns (jd2: Option<int>)
    ensures var a := JdToCivil(jd, sg);
            && (forall y, m :: 1 <= m <= 12 && y * 12 + m == a.y * 12 + a.m + n ==> (jd2 == None <==> NoDay(y, m, sg)))
            && (jd2.Some? ==>
                  var b := JdToCivil(jd2.value, sg);
                  1 <= b.m <= 12 && b.y * 12 + b.m == a.y * 12 + a.m + n && Clipped(b, a.d, sg))
  {
    hide CivilToJd, JdToCivil, OnCalendar, CountedBack;
    var date := JdToCivil(jd, sg);
    var months := date.y * 12 + (date.m - 1) + n;
    var y, m := months / 12, months % 12 + 1;
    DayOfMonth(jd, sg);
    var d := date.d;
    var r := CheckCivil(y, m, d, sg);
    while r == Invalid
      invariant -1 <= d <= date.d
      invariant d >= 0 ==> r == FromOption(ValidCivil(Date(y, m, d), sg))
      invariant forall k :: 1 <= k <= date.d && d < k ==> !Exists(y, m, k, sg)
      invariant d < 0 ==> r == Failed || (r.Day? && LastDay(y, m, sg, r.jd))
      invariant r == Failed ==> NoDay(y, m, sg)
      decreases d + 1
    {
      d := d - 1;
      r := CheckCivil(y, m, d, sg);
      if d == -1 && r != Failed {
        LastIsDay(y, m, sg, r);
      }
    }
    if r == Failed {
      return None;
    }
    jd2 := Some(r.jd);
    DayOfMonth(r.jd, sg);
    assert Exists(y, m, JdToCivil(r.jd, sg).d, sg);
  }

  /** Day -1 is the last day, for every start. */
  lemma LastIsDay(y: int, m: int, sg: Start, r: Checked)
    requires !NoDay(y, m, sg) && forall last :: LastDay(y, m, sg, last) ==> r == CountedBack(y, m, last, sg)
    ensures r.Day? && LastDay(y, m, sg, r.jd)
  {
    hide CivilToJd, JdToCivil, ValidCivil;
    var d :| 1 <= d <= 31 && Exists(y, m, d, sg);
    var last := LastDayAfter(y, m, d, sg);
  }

  lemma {:induction false} LastDayAfter(y: int, m: int, d: int, sg: Start) returns (last: int)
    requires 1 <= d <= 31 && Exists(y, m, d, sg)
    ensures LastDay(y, m, sg, last) && CountedBack(y, m, last, sg) == Day(last)
    decreases 31 - d
  {
    hide CivilToJd, JdToCivil;
    if k :| d < k <= 31 && Exists(y, m, k, sg) {
      last := LastDayAfter(y, m, k, sg);
    } else {
      last := ValidCivil(Date(y, m, d), sg).value;
    }
  }

  /** The last day of its month up to day d, if there is one, and otherwise its last day. */
  predicate Clipped(date: Date, d: int, sg: Start) {
    && 1 <= date.d <= 31 && Exists(date.y, date.m, date.d, sg)
    && (date.d <= d ==> forall k :: date.d < k <= d ==> !Exists(date.y, date.m, k, sg))
    && (date.d > d ==> forall k :: 1 <= k <= 31 && (k <= d || date.d < k) ==> !Exists(date.y, date.m, k, sg))
  }

  lemma DayOfMonth(jd: int, sg: Start)
    ensures 1 <= JdToCivil(jd, sg).d <= 31
  {
    hide JdToCivil;
    OnItsCalendar(jd, sg);
  }

  /** In the pure calendars there always is one: day d, or the last day of a shorter month. */
  lemma ClippedPure(date: Date, d: int, sg: Start)
    requires !sg.Reform? && 1 <= date.m <= 12 && 1 <= d
    ensures !NoDay(date.y, date.m, sg)
    ensures Clipped(date, d, sg) <==>
            var days := DaysInMonth(Leap(date.y, sg), date.m); date.d == if d <= days then d else days
  {
    hide ValidCivil, Leap;
    var days := DaysInMonth(Leap(date.y, sg), date.m);
    forall k ensures Exists(date.y, date.m, k, sg) <==> 1 <= k <= days {
      ValidIsOnCalendar(Date(date.y, date.m, k), sg);
    }
    assert Exists(date.y, date.m, 1, sg);
    assert 1 <= date.d < d && date.d < days ==> Exists(date.y, date.m, date.d + 1, sg);
  }
}
