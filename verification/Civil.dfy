/** Civil dates and Julian Day Numbers (`date.rb`). The decimal constants 365.25, 30.6001, 122.1, 36524.25 and
    1867216.25 are taken as exact rationals, so that each floor is an integer division. */
module Civil {
  import opened Wrappers
  import Arith

  /** The Day of Calendar Reform: always Gregorian, always Julian, or a Julian Day Number. */
  datatype Start = Gregorian | Julian | Reform(day: int)

  const ITALY: Start := Reform(2299161)
  const ENGLAND: Start := Reform(2361222)

  /** jd < sg */
  predicate Before(jd: int, sg: Start) {
    match sg case Gregorian => false case Julian => true case Reform(day) => jd < day
  }

  /** fix_style: the calendar in force on day jd. */
  function Style(jd: int, sg: Start): Start { if Before(jd, sg) then Julian else Gregorian }

  datatype Date = Date(y: int, m: int, d: int)

  function CivilToJd(date: Date, sg: Start): int {
    var y := if date.m <= 2 then date.y - 1 else date.y;
    var m := if date.m <= 2 then date.m + 12 else date.m;
    var a := y / 100;
    var b := 2 - a + a / 4;
    var jd := 1461 * (y + 4716) / 4 + 306001 * (m + 1) / 10000 + date.d + b - 1524;
    if Before(jd, sg) then jd - b else jd
  }

  function JdToCivil(jd: int, sg: Start): Date {
    var a := if Before(jd, sg) then jd else
      var x := (4 * jd - 7468865) / 146097;
      jd + 1 + x - x / 4;
    var b := a + 1524;
    var c := (20 * b - 2442) / 7305;
    var d := 1461 * c / 4;
    var e := 10000 * (b - d) / 306001;
    var dom := b - d - 306001 * e / 10000;
    if e <= 13 then Date(c - 4716, e - 1, dom) else Date(c - 4715, e - 13, dom)
  }

  // ---------------------------------------------------------------- the calendars by their rules

  predicate GregorianLeap(y: int) { (y % 4 == 0 && y % 100 != 0) || y % 400 == 0 }

  predicate JulianLeap(y: int) { y % 4 == 0 }

  function DaysInMonth(leap: bool, m: int): int {
    if m == 2 then (if leap then 29 else 28) else if m == 4 || m == 6 || m == 9 || m == 11 then 30 else 31
  }

  function Leap(y: int, sg: Start): bool { if sg.Julian? then JulianLeap(y) else GregorianLeap(y) }

  /** A date of the pure Gregorian or Julian calendar. */
  predicate OnCalendar(date: Date, sg: Start) {
    1 <= date.m <= 12 && 1 <= date.d <= DaysInMonth(Leap(date.y, sg), date.m)
  }

  function NextDay(date: Date, sg: Start): Date {
    if date.d < DaysInMonth(Leap(date.y, sg), date.m) then Date(date.y, date.m, date.d + 1)
    else if date.m < 12 then Date(date.y, date.m + 1, 1)
    else Date(date.y + 1, 1, 1)
  }

  // ---------------------------------------------------------------- years that begin in March

  /** Days of the months before month e, where March is 4 and February 15. */
  function MonthStart(e: int): int { 306001 * e / 10000 }

  function YearStart(c: int): int { 1461 * c / 4 }

  lemma MonthStarts(e: int)
    requires 4 <= e <= 15
    ensures MonthStart(e) == [122, 153, 183, 214, 244, 275, 306, 336, 367, 397, 428, 459][e - 4]
  {
  }

  /** The month that holds day r of the year. */
  lemma MonthOf(r: int, e: int)
    requires 4 <= e <= 15 && MonthStart(e) < r && (e < 15 ==> r <= MonthStart(e + 1)) && r <= 488
    ensures 10000 * r / 306001 == e
  {
    MonthStarts(e);
    if e < 15 {
      MonthStarts(e + 1);
    }
    assert 306001 * e <= 10000 * r < 306001 * (e + 1);
  }

  lemma InMonth(r: int) returns (e: int)
    requires 123 <= r <= 488
    ensures e == 10000 * r / 306001 && 4 <= e <= 15 && MonthStart(e) < r && (e < 15 ==> r <= MonthStart(e + 1))
  {
    e := if r <= 153 then 4 else if r <= 183 then 5 else if r <= 214 then 6 else if r <= 244 then 7
      else if r <= 275 then 8 else if r <= 306 then 9 else if r <= 336 then 10 else if r <= 367 then 11
      else if r <= 397 then 12 else if r <= 428 then 13 else if r <= 459 then 14 else 15;
    MonthStarts(e);
    if e < 15 {
      MonthStarts(e + 1);
    }
    MonthOf(r, e);
  }

  /** Day r of the year c is day r of the count from the year's start. */
  lemma YearOf(b: int, c: int)
    requires (var r := b - YearStart(c); 123 <= r <= (if c % 4 == 3 then 488 else 487))
    ensures (20 * b - 2442) / 7305 == c
  {
    var k := c % 4;
    assert 4 * YearStart(c) == 1461 * c - k by { YearStartIs(c); }
    assert 7305 * c <= 20 * b - 2442 < 7305 * (c + 1);
  }

  lemma YearStartIs(c: int)
    ensures 4 * YearStart(c) == 1461 * c - c % 4
  {
  }

  lemma InYear(b: int) returns (c: int)
    ensures c == (20 * b - 2442) / 7305 && (var r := b - YearStart(c); 123 <= r <= (if c % 4 == 3 then 488 else 487))
  {
    c := (20 * b - 2442) / 7305;
    YearStartIs(c);
    assert 7305 * c <= 20 * b - 2442 < 7305 * (c + 1);
  }

  // ---------------------------------------------------------------- both directions

  /** The year and month of a date, counted from March. */
  function C(date: Date): int { if date.m <= 2 then date.y + 4715 else date.y + 4716 }

  function E(date: Date): int { if date.m <= 2 then date.m + 13 else date.m + 1 }

  function FromMarch(c: int, e: int, dom: int): Date {
    if e <= 13 then Date(c - 4716, e - 1, dom) else Date(c - 4715, e - 13, dom)
  }

  function Pack(date: Date): int { YearStart(C(date)) + MonthStart(E(date)) + date.d }

  function Unpack(b: int): Date {
    var c := (20 * b - 2442) / 7305;
    var r := b - YearStart(c);
    var e := 10000 * r / 306001;
    FromMarch(c, e, r - MonthStart(e))
  }

  /** How far the Gregorian count is from the Julian one in the year c. */
  function Shift(c: int): int { var a := (c - 4716) / 100; 2 - a + a / 4 }

  lemma CivilToJdIs(date: Date, sg: Start)
    ensures var jd := Pack(date) + Shift(C(date)) - 1524;
            CivilToJd(date, sg) == if Before(jd, sg) then jd - Shift(C(date)) else jd
  {
  }

  lemma JdToCivilIs(jd: int, sg: Start)
    ensures JdToCivil(jd, sg) ==
            var x := (4 * jd - 7468865) / 146097;
            Unpack((if Before(jd, sg) then jd else jd + 1 + x - x / 4) + 1524)
  {
  }

  /** Unpacking gives a date of the Julian calendar that packs to the same number. */
  lemma PackUnpack(b: int)
    ensures Pack(Unpack(b)) == b && OnCalendar(Unpack(b), Julian)
    ensures C(Unpack(b)) == (20 * b - 2442) / 7305
  {
    hide YearStart, MonthStart;
    var c := InYear(b);
    var r := b - YearStart(c);
    var e := InMonth(r);
    MonthStarts(e);
    if e < 15 {
      MonthStarts(e + 1);
    }
  }

  /** A date of the Julian calendar is unpacked from its number. */
  lemma UnpackPack(date: Date)
    requires OnCalendar(date, Julian)
    ensures Unpack(Pack(date)) == date
  {
    hide YearStart, MonthStart;
    var c, e := C(date), E(date);
    MonthStarts(e);
    if e < 15 {
      MonthStarts(e + 1);
    }
    var r := MonthStart(e) + date.d;
    YearOf(Pack(date), c);
    MonthOf(r, e);
  }

  /** The century found from a day number is the century of the date. */
  lemma Century(jd: int)
    ensures var x := (4 * jd - 7468865) / 146097;
            var b := jd + 1 + x - x / 4 + 1524;
            ((20 * b - 2442) / 7305 - 4716) / 100 == x + 4
  {
    var x := (4 * jd - 7468865) / 146097;
    var q := x / 4;
    var b := jd + 1 + x - q + 1524;
    var c := (20 * b - 2442) / 7305;
    assert 146097 * x <= 4 * jd - 7468865 <= 146097 * x + 146096;
    assert 4 * q <= x <= 4 * q + 3;
    assert 7305 * c <= 20 * b - 2442 < 7305 * (c + 1);
    assert 100 * (x + 4) <= c - 4716 < 100 * (x + 5);
  }

  /** The day after 1 March 200 of the Julian calendar, when its count begins to run ahead. */
  const FIRST_REFORM := 1794169

  /** From day number to date and back. */
  lemma JdRoundTrip(jd: int, sg: Start)
    requires sg.Reform? ==> sg.day >= FIRST_REFORM
    ensures CivilToJd(JdToCivil(jd, sg), sg) == jd
  {
    hide Unpack, Pack, C, CivilToJd, JdToCivil, YearStart, MonthStart;
    JdToCivilIs(jd, sg);
    var date := JdToCivil(jd, sg);
    CivilToJdIs(date, sg);
    if Before(jd, sg) {
      PackUnpack(jd + 1524);
      OldShift(jd, C(date), sg);
    } else {
      var x := (4 * jd - 7468865) / 146097;
      PackUnpack(jd + 1 + x - x / 4 + 1524);
      Century(jd);
    }
  }

  /** Before a reform day the date is compared by its Gregorian count, which is then before it as well. */
  lemma OldShift(jd: int, c: int, sg: Start)
    requires Before(jd, sg) && c == (20 * (jd + 1524) - 2442) / 7305 && (sg.Reform? ==> sg.day >= FIRST_REFORM)
    ensures Before(jd + Shift(c), sg)
  {
    var a := (c - 4716) / 100;
    var q := a / 4;
    assert 100 * a <= c - 4716 < 100 * (a + 1) && 4 * q <= a <= 4 * q + 3;
    assert 7305 * c <= 20 * (jd + 1524) - 2442 < 7305 * (c + 1);
  }

  /** For an earlier reform day, the day before it does not come back. */
  lemma EarlyReform(sg: Start)
    requires sg.Reform? && sg.day < FIRST_REFORM
    ensures CivilToJd(JdToCivil(sg.day - 1, sg), sg) != sg.day - 1
  {
    hide Unpack, Pack, C, CivilToJd, JdToCivil, YearStart, MonthStart;
    var jd := sg.day - 1;
    JdToCivilIs(jd, sg);
    var date := JdToCivil(jd, sg);
    CivilToJdIs(date, sg);
    PackUnpack(jd + 1524);
    EarlyShift(jd, C(date));
  }

  lemma EarlyShift(jd: int, c: int)
    requires c == (20 * (jd + 1524) - 2442) / 7305 && jd < FIRST_REFORM - 1
    ensures Shift(c) >= 1
  {
    var a := (c - 4716) / 100;
    var q := a / 4;
    assert 100 * a <= c - 4716 < 100 * (a + 1) && 4 * q <= a <= 4 * q + 3;
    assert 7305 * c <= 20 * (jd + 1524) - 2442 < 7305 * (c + 1);
  }

  /** Day numbers survive the trip exactly for the pure calendars and every later reform day, such as
      Italy's and England's. */
  lemma JdRoundTripIff(sg: Start)
    ensures (forall jd :: CivilToJd(JdToCivil(jd, sg), sg) == jd) <==> (sg.Reform? ==> sg.day >= FIRST_REFORM)
  {
    hide CivilToJd, JdToCivil;
    if sg.Reform? && sg.day < FIRST_REFORM {
      EarlyReform(sg);
    } else {
      forall jd ensures CivilToJd(JdToCivil(jd, sg), sg) == jd {
        JdRoundTrip(jd, sg);
      }
    }
  }

  /** _valid_civil? for a positive month and day: the day number, or none. */
  function ValidCivil(date: Date, sg: Start): (r: Option<int>) {
    var jd := CivilToJd(date, sg);
    if JdToCivil(jd, sg) == date then Some(jd) else None
  }

  /** It accepts exactly the dates that some day has, and answers with that day. */
  lemma ValidCivilIff(date: Date, sg: Start, jd: int)
    requires sg.Reform? ==> sg.day >= FIRST_REFORM
    ensures JdToCivil(jd, sg) == date <==> ValidCivil(date, sg) == Some(jd)
  {
    hide CivilToJd, JdToCivil;
    JdRoundTrip(jd, sg);
  }

  /** So it does for every date and day exactly if day numbers survive. */
  lemma ValidCivilExactly(sg: Start)
    ensures (forall date, jd :: JdToCivil(jd, sg) == date <==> ValidCivil(date, sg) == Some(jd)) <==>
            (sg.Reform? ==> sg.day >= FIRST_REFORM)
  {
    hide CivilToJd, JdToCivil;
    if sg.Reform? && sg.day < FIRST_REFORM {
      EarlyReform(sg);
      var date := JdToCivil(sg.day - 1, sg);
      assert ValidCivil(date, sg) != Some(sg.day - 1);
    } else {
      forall date, jd ensures JdToCivil(jd, sg) == date <==> ValidCivil(date, sg) == Some(jd) {
        ValidCivilIff(date, sg, jd);
      }
    }
  }

  // ---------------------------------------------------------------- the pure calendars

  /** The correction applied to day numbers of the Gregorian calendar. */
  lemma CenturyOf(date: Date)
    requires OnCalendar(date, Gregorian)
    ensures var jd := CivilToJd(date, Gregorian);
            var x := (4 * jd - 7468865) / 146097;
            jd + 1 + x - x / 4 == Pack(date) - 1524
  {
    hide CivilToJd, YearStart, MonthStart;
    CivilToJdIs(date, Gregorian);
    var c, e := C(date), E(date);
    var r := MonthStart(e) + date.d;
    MonthStarts(e);
    YearStartIs(c);
    CenturyBounds(c, r);
  }

  lemma CenturyBounds(c: int, r: int)
    requires 123 <= r <= (if GregorianLeap(c - 4715) then 488 else 487)
    ensures var jd := YearStart(c) + r + Shift(c) - 1524;
            var a := (c - 4716) / 100;
            (4 * jd - 7468865) / 146097 == a - 4 && jd + 1 + (a - 4) - (a - 4) / 4 == YearStart(c) + r - 1524
  {
    hide YearStart, GregorianLeap;
    var a := (c - 4716) / 100;
    var w, j, k := (c - 4716) % 100, a % 4, c % 4;
    YearStartIs(c);
    CenturyParts(c);
    LastOfCentury(c, a, w, j);
    CenturyRange(a, w, j, k, r, c, YearStart(c), a / 4);
    CenturyFound(4 * (YearStart(c) + r + Shift(c) - 1524) - 7468865, a);
  }

  lemma CenturyParts(c: int)
    ensures var a, w := (c - 4716) / 100, (c - 4716) % 100;
            c - 4716 == 100 * a + w && a == 4 * (a / 4) + a % 4 && c % 4 == w % 4
  {
    var a, w := (c - 4716) / 100, (c - 4716) % 100;
    assert c == 4 * (1179 + 25 * a) + w;
  }

  lemma CenturyFound(t: int, a: int)
    requires 0 <= t - 146097 * (a - 4) < 146097
    ensures t / 146097 == a - 4 && (a - 4) / 4 == a / 4 - 1
  {
  }

  /** The bounds, free of divisions. */
  lemma CenturyRange(a: int, w: int, j: int, k: int, r: int, c: int, start: int, q: int)
    requires c - 4716 == 100 * a + w && 0 <= w < 100 && a == 4 * q + j && 0 <= j < 4 && 0 <= k < 4
    requires 4 * start == 1461 * c - k && (w == 0 ==> k == 0) && (w == 99 ==> k == 3)
    requires 123 <= r <= 488 && (w == 99 && r == 488 ==> j == 3)
    ensures 0 <= 4 * (start + r + (2 - a + q) - 1524) - 7468865 - 146097 * (a - 4) < 146097
  {
    assert 4 * (start + r + (2 - a + q) - 1524) - 7468865 - 146097 * (a - 4) == 1461 * w - k + 4 * r - j - 489;
  }

  /** The year after the last of a century, counted from March, is leap only every fourth century. */
  lemma LastOfCentury(c: int, a: int, w: int, j: int)
    requires c - 4716 == 100 * a + w && 0 <= w < 100 && j == a % 4
    ensures w == 99 && GregorianLeap(c - 4715) ==> j == 3
  {
    if w == 99 {
      assert c - 4715 == 100 * (a + 1);
    }
  }

  /** From date to day number and back. */
  lemma CivilRoundTrip(date: Date, sg: Start)
    requires !sg.Reform? && OnCalendar(date, sg)
    ensures JdToCivil(CivilToJd(date, sg), sg) == date
  {
    hide CivilToJd, JdToCivil, Unpack, Pack;
    CivilToJdIs(date, sg);
    JdToCivilIs(CivilToJd(date, sg), sg);
    if sg.Gregorian? {
      CenturyOf(date);
      GregorianIsJulian(date);
    }
    UnpackPack(date);
  }

  /** A Gregorian leap year is one of the Julian calendar. */
  lemma GregorianIsJulian(date: Date)
    requires OnCalendar(date, Gregorian)
    ensures OnCalendar(date, Julian)
  {
    var q := date.y / 400;
    assert date.y % 400 == 0 ==> date.y == 4 * (100 * q);
  }

  /** Every day has a date of its calendar. */
  lemma OnItsCalendar(jd: int, sg: Start)
    ensures OnCalendar(JdToCivil(jd, sg), Style(jd, sg)) && JdToCivil(jd, sg) == JdToCivil(jd, Style(jd, sg))
  {
    hide CivilToJd, JdToCivil, Unpack, YearStart, MonthStart, OnCalendar, GregorianLeap;
    JdToCivilIs(jd, sg);
    JdToCivilIs(jd, Style(jd, sg));
    if Before(jd, sg) {
      PackUnpack(jd + 1524);
    } else {
      var x := (4 * jd - 7468865) / 146097;
      var b := jd + 1 + x - x / 4 + 1524;
      var date := JdToCivil(jd, sg);
      PackUnpack(b);
      Century(jd);
      if date.m == 2 && date.d == 29 {
        MonthStarts(15);
        JulianLeapDay(date);
        NoLeapDay(jd, C(date));
      }
      JulianIsGregorian(date);
    }
  }

  lemma JulianLeapDay(date: Date)
    requires OnCalendar(date, Julian) && date.m == 2 && date.d == 29
    ensures C(date) % 4 == 3 && E(date) == 15
  {
  }

  lemma JulianIsGregorian(date: Date)
    requires OnCalendar(date, Julian) && (date.m == 2 && date.d == 29 ==> GregorianLeap(date.y))
    ensures OnCalendar(date, Gregorian)
  {
  }

  /** The last day of February is there only in Gregorian leap years. */
  lemma NoLeapDay(jd: int, c: int)
    requires var x := (4 * jd - 7468865) / 146097;
             (c - 4716) / 100 == x + 4 && jd + 1 + x - x / 4 + 1524 == YearStart(c) + 488
    requires c % 4 == 3
    ensures GregorianLeap(c - 4715)
  {
    hide YearStart;
    var x := (4 * jd - 7468865) / 146097;
    var a, w := x + 4, (c - 4716) % 100;
    YearStartIs(c);
    assert c - 4716 == 100 * a + w;
    assert x / 4 == a / 4 - 1 && a == 4 * (a / 4) + a % 4;
    LeapCentury(c, a, w);
  }

  lemma Multiple(y: int, n: int, k: int)
    requires n > 0 && y == k * n
    ensures y % n == 0
  {
    Arith.DivModUnique(y, n, k, 0);
  }

  lemma LeapCentury(c: int, a: int, w: int)
    requires c - 4716 == 100 * a + w && 0 <= w < 100 && c % 4 == 3 && (w == 99 ==> a % 4 == 3)
    ensures GregorianLeap(c - 4715)
  {
    var y := c - 4715;
    if w == 99 {
      Multiple(y, 400, a / 4 + 1);
    } else {
      Multiple(y, 4, c / 4 - 1178);
      Arith.DivModUnique(y, 100, a, w + 1);
    }
  }

  /** In the pure calendars _valid_civil? knows the rules for months and leap years. */
  lemma ValidIsOnCalendar(date: Date, sg: Start)
    requires !sg.Reform?
    ensures ValidCivil(date, sg) != None <==> OnCalendar(date, sg)
  {
    hide CivilToJd, JdToCivil;
    if OnCalendar(date, sg) {
      CivilRoundTrip(date, sg);
    }
    OnItsCalendar(CivilToJd(date, sg), sg);
  }

  /** The next calendar day has the next number. */
  lemma NextDayNumber(date: Date, sg: Start)
    requires !sg.Reform? && OnCalendar(date, sg)
    ensures CivilToJd(NextDay(date, sg), sg) == CivilToJd(date, sg) + 1 && OnCalendar(NextDay(date, sg), sg)
  {
    hide CivilToJd, YearStart, MonthStart, Shift;
    var next := NextDay(date, sg);
    CivilToJdIs(date, sg);
    CivilToJdIs(next, sg);
    NextPack(date, sg);
  }

  lemma NextPack(date: Date, sg: Start)
    requires !sg.Reform? && OnCalendar(date, sg)
    ensures var next := NextDay(date, sg);
            && (sg.Julian? ==> Pack(next) == Pack(date) + 1)
            && (sg.Gregorian? ==> Pack(next) + Shift(C(next)) == Pack(date) + Shift(C(date)) + 1)
  {
    hide YearStart, MonthStart, Shift;
    if date.d == DaysInMonth(Leap(date.y, sg), date.m) {
      if date.m == 2 {
        EndOfFebruary(date, sg);
      } else {
        EndOfMonth(date, sg);
      }
    }
  }

  lemma EndOfMonth(date: Date, sg: Start)
    requires !sg.Reform? && 1 <= date.m <= 12 && date.m != 2 && date.d == DaysInMonth(Leap(date.y, sg), date.m)
    ensures var next := NextDay(date, sg); Pack(next) == Pack(date) + 1 && C(next) == C(date)
  {
    hide YearStart, MonthStart, Leap;
    MonthStarts(E(date));
    MonthStarts(E(NextDay(date, sg)));
  }

  lemma EndOfFebruary(date: Date, sg: Start)
    requires !sg.Reform? && date.m == 2 && date.d == DaysInMonth(Leap(date.y, sg), 2)
    ensures var next := NextDay(date, sg);
            && (sg.Julian? ==> Pack(next) == Pack(date) + 1)
            && (sg.Gregorian? ==> Pack(next) + Shift(C(next)) == Pack(date) + Shift(C(date)) + 1)
  {
    hide YearStart, MonthStart, Shift, Leap;
    MonthStarts(15);
    MonthStarts(4);
    MarchYear(date.y, sg);
  }

  /** The days of a year that begins in March. */
  lemma MarchStart(y: int)
    ensures YearStart(y + 4716) == YearStart(y + 4715) + (if y % 4 == 0 then 366 else 365)
  {
    YearStartIs(y + 4716);
    YearStartIs(y + 4715);
  }

  /** Over the end of February: the leap day and the correction make up for each other. */
  lemma MarchShift(y: int)
    ensures y % 100 != 0 ==> Shift(y + 4716) == Shift(y + 4715)
    ensures y % 100 == 0 ==> Shift(y + 4716) == Shift(y + 4715) - (if y % 400 == 0 then 0 else 1)
  {
    var a, r := y / 100, y % 100;
    assert (y - 1) / 100 == if r == 0 then a - 1 else a;
    assert (y + 4716) - 4716 == y && (y + 4715) - 4716 == y - 1;
    assert (a - 1) / 4 == if a % 4 == 0 then a / 4 - 1 else a / 4;
    assert r == 0 ==> (y % 400 == 0 <==> a % 4 == 0);
  }

  /** The length of a calendar year, between two days of January. */
  lemma MarchYear(y: int, sg: Start)
    requires !sg.Reform?
    ensures var days := if Leap(y, sg) then 366 else 365;
            && (sg.Julian? ==> YearStart(y + 4716) == YearStart(y + 4715) + days)
            && (sg.Gregorian? ==> YearStart(y + 4716) + Shift(y + 4716) == YearStart(y + 4715) + Shift(y + 4715) + days)
  {
    hide YearStart, Shift;
    MarchStart(y);
    MarchShift(y);
  }

  /** The next day number is the next day of the calendar, on either side of a reform. */
  lemma NextDayCivil(jd: int, sg: Start)
    ensures Style(jd + 1, sg) == Style(jd, sg) ==> JdToCivil(jd + 1, sg) == NextDay(JdToCivil(jd, sg), Style(jd, sg))
  {
    hide CivilToJd, JdToCivil, OnCalendar, NextDay;
    var date, style := JdToCivil(jd, sg), Style(jd, sg);
    OnItsCalendar(jd, sg);
    OnItsCalendar(jd + 1, sg);
    JdRoundTrip(jd, style);
    NextDayNumber(date, style);
    CivilRoundTrip(NextDay(date, style), style);
  }

  /** Date#leap? */
  predicate IsLeap(y: int, style: Start) { JdToCivil(CivilToJd(Date(y, 3, 1), style) - 1, style).d == 29 }

  lemma LeapIs(y: int, style: Start)
    requires !style.Reform?
    ensures IsLeap(y, style) <==> Leap(y, style)
  {
    hide CivilToJd, JdToCivil;
    var last := Date(y, 2, if Leap(y, style) then 29 else 28);
    NextDayNumber(last, style);
    CivilRoundTrip(last, style);
  }
}
