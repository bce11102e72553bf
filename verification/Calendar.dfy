/**
 The calendar arithmetic of `arizona_time` (tools/sashfold100.cpp): days since 1970-01-01 from a date and back, over all
 years of the proleptic Gregorian calendar, with the division of C++; and the date and clock seven hours earlier.
 */
module Calendar {
  import opened Powers

  /** Division as C++ has it: toward zero. */
  function Quotient(a: int, b: int): int
    requires b > 0
  {
    if a >= 0 then a / b else -((-a) / b)
  }

  function Remainder(a: int, b: int): int
    requires b > 0
  {
    a - Quotient(a, b) * b
  }

  datatype Date = Date(year: int, month: int, day: int)

  // The calendar itself.

  predicate IsLeap(y: int) { y % 4 == 0 && (y % 100 != 0 || y % 400 == 0) }

  function DaysInMonth(y: int, m: int): int {
    if m == 2 then (if IsLeap(y) then 29 else 28) else if m == 4 || m == 6 || m == 9 || m == 11 then 30 else 31
  }

  predicate Valid(d: Date) { 1 <= d.month <= 12 && 1 <= d.day <= DaysInMonth(d.year, d.month) }

  /** The day after. */
  function Next(d: Date): Date {
    if d.day < DaysInMonth(d.year, d.month) then d.(day := d.day + 1)
    else if d.month < 12 then Date(d.year, d.month + 1, 1)
    else Date(d.year + 1, 1, 1)
  }

  // The source's arithmetic.

  /** The days of an era before a year of it. */
  function YearStart(yoe: int): int { yoe * 365 + Quotient(yoe, 4) - Quotient(yoe, 100) }

  function DaysFromCivil(d: Date): int {
    var y := if d.month <= 2 then d.year - 1 else d.year;
    var era := Quotient(if y >= 0 then y else y - 399, 400);
    var yoe := y - era * 400;
    var doy := Quotient(153 * (d.month + (if d.month > 2 then -3 else 9)) + 2, 5) + d.day - 1;
    var doe := YearStart(yoe) + doy;
    era * 146097 + doe - 719468
  }

  function YearOfEra(doe: int): int {
    Quotient(doe - Quotient(doe, 1460) + Quotient(doe, 36524) - Quotient(doe, 146096), 365)
  }

  function CivilFromDays(days: int): Date {
    var z := days + 719468;
    var era := Quotient(if z >= 0 then z else z - 146096, 146097);
    DateOfEra(era, z - era * 146097)
  }

  function DateOfEra(era: int, doe: int): Date {
    var yoe := YearOfEra(doe);
    DateOfYear(era, yoe, doe - YearStart(yoe))
  }

  function DateOfYear(era: int, yoe: int, doy: int): Date {
    var mp := Quotient(5 * doy + 2, 153);
    var m := if mp < 10 then mp + 3 else mp - 9;
    Date(yoe + era * 400 + (if m <= 2 then 1 else 0), m, doy - Quotient(153 * mp + 2, 5) + 1)
  }

  /** The days before a month in a year that begins with March. */
  function BeforeMonth(mp: int): int { (153 * mp + 2) / 5 }

  /** The era the source computes is the floor. */
  lemma Floors(a: int, b: int)
    requires b > 0
    ensures Quotient(if a >= 0 then a else a - (b - 1), b) == a / b
  {
    if a < 0 {
      var q, r := a / b, a % b;
      assert a == q * b + r && 0 <= r < b;
      var n := b - 1 - a;
      assert n == (-q) * b + (b - 1 - r);
      DivModUnique(n, -q, b - 1 - r, b);
    }
  }

  /** A year of March to February: where it stands in its era of 400, and a day in it. */
  datatype Place = Place(era: int, century: int, four: int, year: int, day: int)

  function YearOf(p: Place): int { 100 * p.century + 4 * p.four + p.year }

  /** Whether its last day is the 29th of February. */
  predicate LongYear(p: Place) { p.year == 3 && (p.four != 24 || p.century == 3) }

  predicate InEra(p: Place) {
    && 0 <= p.century <= 3 && 0 <= p.four <= 24 && 0 <= p.year <= 3
    && 0 <= p.day < (if LongYear(p) then 366 else 365)
  }

  function DayOfEra(p: Place): int { 36524 * p.century + 1461 * p.four + 365 * p.year + p.day }

  /** The heart: from the day of the era back to the year, in whatever year it falls. */
  lemma YearBack(p: Place)
    requires InEra(p)
    ensures 0 <= DayOfEra(p) < 146097 && YearOfEra(DayOfEra(p)) == YearOf(p)
  {
    var doe := DayOfEra(p);
    var late := 24 * p.century + p.four + 365 * p.year + p.day;
    assert doe == 1460 * (25 * p.century + p.four) + late;
    var over := if late >= 1460 then 1 else 0;
    DivModUnique(doe, 25 * p.century + p.four + over, late - 1460 * over, 1460);
    var last := if doe == 146096 then 1 else 0;
    DivModUnique(doe, p.century + last, doe - 36524 * (p.century + last), 36524);
    DivModUnique(doe, last, doe - 146096 * last, 146096);
    DivModUnique(365 * YearOf(p) + p.day - over, YearOf(p), p.day - over, 365);
  }

  lemma YearParts(p: Place)
    requires InEra(p)
    ensures var y := YearOf(p);
            0 <= y < 400 && y / 4 == 25 * p.century + p.four && y / 100 == p.century && (LongYear(p) <==> IsLeap(y + 1))
  {
    DivModUnique(YearOf(p), 25 * p.century + p.four, p.year, 4);
    DivModUnique(YearOf(p), p.century, 4 * p.four + p.year, 100);
  }

  /** The place of a day of an era. */
  function PlaceOf(era: int, doe: int): Place {
    var century := if doe == 146096 then 3 else doe / 36524;
    var rest := doe - 36524 * century;
    var four := rest / 1461;
    var left := rest - 1461 * four;
    var year := if left == 1460 then 3 else left / 365;
    Place(era, century, four, year, left - 365 * year)
  }

  lemma PlaceIs(era: int, doe: int)
    requires 0 <= doe < 146097
    ensures InEra(PlaceOf(era, doe)) && DayOfEra(PlaceOf(era, doe)) == doe
  {
    var p := PlaceOf(era, doe);
    assert doe == 146096 || doe - 36524 * p.century < 36524;
    assert 0 <= p.century <= 3 && 0 <= p.four <= 24;
  }

  /** A month of the year that begins with March, from 0. */
  function MonthOf(m: int): int { if m > 2 then m - 3 else m + 9 }

  /** A date is at a place: in its March year, so many days from the first of March. */
  predicate At(d: Date, p: Place) {
    && (if d.month <= 2 then d.year - 1 else d.year) == p.era * 400 + YearOf(p)
    && BeforeMonth(MonthOf(d.month)) + d.day - 1 == p.day
  }

  lemma MonthBack(mp: int, day: int)
    requires 0 <= mp <= 11 && 1 <= day <= (if mp == 11 then 29 else BeforeMonth(mp + 1) - BeforeMonth(mp))
    ensures (5 * (BeforeMonth(mp) + day - 1) + 2) / 153 == mp
  {
  }

  lemma MonthFrom(doy: int)
    requires 0 <= doy <= 365
    ensures var mp := (5 * doy + 2) / 153;
            0 <= mp <= 11 && BeforeMonth(mp) <= doy && (mp < 11 ==> doy < BeforeMonth(mp + 1)) && BeforeMonth(11) == 337
  {
  }

  lemma MonthLength(y: int, m: int)
    requires 1 <= m <= 12 && m != 2
    ensures DaysInMonth(y, m) == BeforeMonth(MonthOf(m) + 1) - BeforeMonth(MonthOf(m))
  {
  }

  lemma LeapEra(era: int, y: int)
    ensures IsLeap(era * 400 + y) == IsLeap(y)
  {
    assert (era * 400 + y) % 4 == y % 4 by { DivModUnique(era * 400 + y, era * 100 + y / 4, y % 4, 4); }
    assert (era * 400 + y) % 100 == y % 100 by { DivModUnique(era * 400 + y, era * 4 + y / 100, y % 100, 100); }
    assert (era * 400 + y) % 400 == y % 400 by { DivModUnique(era * 400 + y, era + y / 400, y % 400, 400); }
  }

  /** Every date is at a place. */
  lemma Placed(d: Date) returns (p: Place)
    requires Valid(d)
    ensures InEra(p) && At(d, p)
  {
    var y := if d.month <= 2 then d.year - 1 else d.year;
    var yoe := y % 400;
    var four := yoe % 100 / 4;
    p := Place(y / 400, yoe / 100, four, yoe % 4, BeforeMonth(MonthOf(d.month)) + d.day - 1);
    assert yoe == 100 * p.century + yoe % 100 && yoe % 100 == 4 * four + yoe % 4;
    var q := p.(day := 0);
    YearParts(q);
    LeapEra(p.era, yoe + 1);
    if d.month != 2 {
      MonthLength(d.year, d.month);
    }
    assert 0 <= p.day <= 364 + if d.month == 2 && IsLeap(d.year) then 1 else 0;
  }

  /** The day number of a date at a place. */
  lemma NumberAt(d: Date, p: Place)
    requires 1 <= d.month <= 12 && InEra(p) && At(d, p)
    ensures DaysFromCivil(d) == p.era * 146097 + DayOfEra(p) - 719468
  {
    var y := if d.month <= 2 then d.year - 1 else d.year;
    YearParts(p);
    YearStartIs(p);
    Floors(y, 400);
    DivModUnique(y, p.era, YearOf(p), 400);
    hide YearStart, DayOfEra;
    assert Quotient(153 * MonthOf(d.month) + 2, 5) == BeforeMonth(MonthOf(d.month));
  }

  lemma YearStartIs(p: Place)
    requires InEra(p)
    ensures YearStart(YearOf(p)) + p.day == DayOfEra(p)
  {
    YearParts(p);
  }

  lemma EraOf(era: int, doe: int)
    requires 0 <= doe < 146097
    ensures var z := era * 146097 + doe; Quotient(if z >= 0 then z else z - 146096, 146097) == era
  {
    var z := era * 146097 + doe;
    Floors(z, 146097);
    DivModUnique(z, era, doe, 146097);
  }

  lemma InEraDate(era: int, doe: int)
    requires 0 <= doe < 146097
    ensures CivilFromDays(era * 146097 + doe - 719468) == DateOfEra(era, doe)
  {
    EraOf(era, doe);
    hide DateOfEra, Quotient;
  }

  lemma InYearDate(era: int, doe: int, yoe: int, day: int)
    requires YearOfEra(doe) == yoe && YearStart(yoe) + day == doe
    ensures DateOfEra(era, doe) == DateOfYear(era, yoe, day)
  {
    hide YearOfEra, YearStart, DateOfYear;
  }

  lemma DateOfPlace(p: Place)
    requires InEra(p)
    ensures CivilFromDays(p.era * 146097 + DayOfEra(p) - 719468) == DateOfYear(p.era, YearOf(p), p.day)
  {
    hide *;
    YearBack(p);
    YearStartIs(p);
    InEraDate(p.era, DayOfEra(p));
    InYearDate(p.era, DayOfEra(p), YearOf(p), p.day);
  }

  lemma YearDate(p: Place)
    requires InEra(p)
    ensures var d := DateOfYear(p.era, YearOf(p), p.day); Valid(d) && At(d, p)
  {
    YearParts(p);
    MonthFrom(p.day);
    LeapEra(p.era, YearOf(p) + 1);
    var d := DateOfYear(p.era, YearOf(p), p.day);
    assert MonthOf(d.month) == (5 * p.day + 2) / 153;
    if d.month != 2 {
      MonthLength(d.year, d.month);
    }
  }

  /** The date of the day number of a place. */
  lemma DateAt(p: Place)
    requires InEra(p)
    ensures var d := CivilFromDays(p.era * 146097 + DayOfEra(p) - 719468); Valid(d) && At(d, p)
  {
    hide *;
    DateOfPlace(p);
    YearDate(p);
  }

  lemma SamePlace(d: Date, e: Date, p: Place)
    requires Valid(d) && Valid(e) && At(d, p) && At(e, p)
    ensures d == e
  {
    FromPlace(d, p);
    FromPlace(e, p);
  }

  lemma FromPlace(d: Date, p: Place)
    requires Valid(d) && At(d, p)
    ensures MonthOf(d.month) == (5 * p.day + 2) / 153 && d.day == p.day - BeforeMonth(MonthOf(d.month)) + 1
  {
    if d.month != 2 {
      MonthLength(d.year, d.month);
    }
    MonthBack(MonthOf(d.month), d.day);
  }

  /** From a date to its number and back, for every date of every year. */
  lemma DateRoundTrip(d: Date)
    requires Valid(d)
    ensures CivilFromDays(DaysFromCivil(d)) == d
  {
    hide *;
    var p := Placed(d);
    ValidMonth(d);
    NumberAt(d, p);
    DateAt(p);
    SamePlace(d, CivilFromDays(DaysFromCivil(d)), p);
  }

  lemma ValidMonth(d: Date)
    requires Valid(d)
    ensures 1 <= d.month <= 12
  {
  }

  /** From a number to its date and back, for every integer; and the date is one. */
  lemma NumberRoundTrip(days: int)
    ensures Valid(CivilFromDays(days)) && DaysFromCivil(CivilFromDays(days)) == days
  {
    hide *;
    var z := days + 719468;
    var era, doe := z / 146097, z % 146097;
    assert z == era * 146097 + doe;
    var p := PlaceOf(era, doe);
    PlaceIs(era, doe);
    PlaceEra(era, doe);
    DateAt(p);
    var d := CivilFromDays(days);
    assert days == p.era * 146097 + DayOfEra(p) - 719468;
    ValidMonth(d);
    NumberAt(d, p);
  }

  lemma PlaceEra(era: int, doe: int)
    ensures PlaceOf(era, doe).era == era
  {
  }

  /** The first of January 1970 is 0. */
  lemma Epoch()
    ensures DaysFromCivil(Date(1970, 1, 1)) == 0 && CivilFromDays(0) == Date(1970, 1, 1)
  {
    assert DaysFromCivil(Date(1970, 1, 1)) == 0;
    DateRoundTrip(Date(1970, 1, 1));
  }

  /** The place of the day after a year's last. */
  lemma NewYear(p: Place) returns (q: Place)
    requires InEra(p) && p.day == (if LongYear(p) then 365 else 364)
    ensures InEra(q) && q.day == 0 && q.era * 400 + YearOf(q) == p.era * 400 + YearOf(p) + 1
    ensures q.era * 146097 + DayOfEra(q) == p.era * 146097 + DayOfEra(p) + 1
  {
    q := if p.year < 3 then Place(p.era, p.century, p.four, p.year + 1, 0)
         else if p.four < 24 then Place(p.era, p.century, p.four + 1, 0, 0)
         else if p.century < 3 then Place(p.era, p.century + 1, 0, 0, 0)
         else Place(p.era + 1, 0, 0, 0, 0);
  }

  /** Days that follow each other have numbers that do. */
  lemma NextNumber(d: Date)
    requires Valid(d)
    ensures Valid(Next(d)) && DaysFromCivil(Next(d)) == DaysFromCivil(d) + 1
  {
    var p := Placed(d);
    NumberAt(d, p);
    var e := Next(d);
    NextValid(d);
    hide DaysFromCivil;
    if d.month == 2 && e.month == 3 {
      LastOfYear(d, p);
      var q := NewYear(p);
      assert At(e, q);
      NumberAt(e, q);
    } else {
      if d.month != 2 {
        MonthLength(d.year, d.month);
      }
      var q := p.(day := p.day + 1);
      assert At(e, q);
      StillInEra(e, q);
      NumberAt(e, q);
    }
  }

  lemma NextValid(d: Date)
    requires Valid(d)
    ensures Valid(Next(d))
  {
  }

  lemma LastOfYear(d: Date, p: Place)
    requires Valid(d) && d.month == 2 && Next(d).month == 3 && InEra(p) && At(d, p)
    ensures p.day == if LongYear(p) then 365 else 364
  {
    YearParts(p);
    LeapEra(p.era, YearOf(p) + 1);
  }

  /** A date's place is in its era. */
  lemma StillInEra(d: Date, p: Place)
    requires Valid(d) && At(d, p) && InEra(p.(day := 0))
    ensures InEra(p)
  {
    YearParts(p.(day := 0));
    LeapEra(p.era, YearOf(p) + 1);
    if d.month != 2 {
      MonthLength(d.year, d.month);
    }
  }

  // The clock.

  /** What is printed: the date, the hour on the twelve-hour dial, the minute, and PM or AM. */
  datatype Clock = Clock(date: Date, hour: int, minute: int, pm: bool)

  function ArizonaTime(utc: Date, hour: int, minute: int, second: int): Clock {
    var seconds := DaysFromCivil(utc) * 86400 + hour * 3600 + minute * 60 + second - 7 * 3600;
    var rest := Remainder(seconds, 86400);
    var days := if rest < 0 then Quotient(seconds, 86400) - 1 else Quotient(seconds, 86400);
    var left := if rest < 0 then rest + 86400 else rest;
    ClockOf(CivilFromDays(days), left)
  }

  function ClockOf(date: Date, left: int): Clock {
    var h24 := Quotient(left, 3600);
    Clock(date, if Remainder(h24, 12) == 0 then 12 else Remainder(h24, 12),
          Quotient(Remainder(left, 3600), 60), !(h24 < 12))
  }

  /** The second of the day at which a clock comes to show its minute. */
  function Shown(c: Clock): int { (c.hour % 12 + (if c.pm then 12 else 0)) * 3600 + c.minute * 60 }

  predicate OnDial(c: Clock) { Valid(c.date) && 1 <= c.hour <= 12 && 0 <= c.minute < 60 }

  /** Whether a clock shows the minute that holds a moment, in seconds from the start of 1970 where the clock hangs. */
  predicate Shows(c: Clock, moment: int) {
    OnDial(c) && var start := DaysFromCivil(c.date) * 86400 + Shown(c); start <= moment < start + 60
  }

  lemma FloorOfQuotient(a: int, b: int)
    requires b > 0
    ensures (if Remainder(a, b) < 0 then Quotient(a, b) - 1 else Quotient(a, b)) == a / b
    ensures (if Remainder(a, b) < 0 then Remainder(a, b) + b else Remainder(a, b)) == a % b
  {
    if a < 0 {
      var q, r := (-a) / b, (-a) % b;
      assert -a == q * b + r && 0 <= r < b;
      if r == 0 {
        DivModUnique(a, -q, 0, b);
      } else {
        DivModUnique(a, -q - 1, b - r, b);
      }
      assert Quotient(a, b) == -q && Remainder(a, b) == -r;
    } else {
      assert a == (a / b) * b + a % b;
    }
  }

  /** The dial shows the minute of the day it is. */
  lemma Dial(date: Date, left: int)
    requires Valid(date) && 0 <= left < 86400
    ensures var c := ClockOf(date, left); OnDial(c) && c.date == date && Shown(c) <= left < Shown(c) + 60
  {
    hide Valid;
    var h, rest := left / 3600, left % 3600;
    assert left == h * 3600 + rest && 0 <= h < 24;
    assert rest == (rest / 60) * 60 + rest % 60;
    var c := ClockOf(date, left);
    assert c.minute == rest / 60;
    assert c.hour % 12 + (if c.pm then 12 else 0) == h;
  }

  /** What is printed is the date and the minute seven hours before the moment in UTC, whatever the moment. */
  lemma SevenHoursBefore(utc: Date, hour: int, minute: int, second: int)
    ensures Shows(ArizonaTime(utc, hour, minute, second),
                  DaysFromCivil(utc) * 86400 + hour * 3600 + minute * 60 + second - 7 * 3600)
  {
    hide DaysFromCivil, CivilFromDays, Valid, ClockOf, Quotient, Remainder;
    var seconds := DaysFromCivil(utc) * 86400 + hour * 3600 + minute * 60 + second - 7 * 3600;
    FloorOfQuotient(seconds, 86400);
    NumberRoundTrip(seconds / 86400);
    assert seconds == (seconds / 86400) * 86400 + seconds % 86400;
    Dial(CivilFromDays(seconds / 86400), seconds % 86400);
    hide OnDial, Shown;
  }

  /** No other dial shows that moment: date, hour, minute and half of the day are all right. */
  lemma OneClock(a: Clock, b: Clock, moment: int)
    requires Shows(a, moment) && Shows(b, moment)
    ensures a == b
  {
    hide DaysFromCivil, CivilFromDays;
    DateRoundTrip(a.date);
    DateRoundTrip(b.date);
    hide Valid;
    assert 0 <= Shown(a) <= 86340 && 0 <= Shown(b) <= 86340;
    hide Shown;
    OneDay(DaysFromCivil(a.date), Shown(a), DaysFromCivil(b.date), Shown(b), moment);
    SameDial(a, b);
  }

  lemma SameDial(a: Clock, b: Clock)
    requires 1 <= a.hour <= 12 && 1 <= b.hour <= 12 && 0 <= a.minute < 60 && 0 <= b.minute < 60
    requires Shown(b) - 60 < Shown(a) < Shown(b) + 60
    ensures a.hour == b.hour && a.minute == b.minute && a.pm == b.pm
  {
    var h, k := a.hour % 12 + (if a.pm then 12 else 0), b.hour % 12 + (if b.pm then 12 else 0);
    assert h == k;
  }

  lemma OneDay(d: int, s: int, e: int, t: int, moment: int)
    requires 0 <= s <= 86340 && 0 <= t <= 86340
    requires d * 86400 + s <= moment < d * 86400 + s + 60 && e * 86400 + t <= moment < e * 86400 + t + 60
    ensures d == e
  {
  }
}
