/** Civil dates: the closed formula of `utc_parts` against the calendar itself. */
module CivilDate {

  datatype Date = Date(year: int, month: int, day: int)
  datatype Time = Time(hour: int, minute: int, second: int)

  const DAY: int := 86400
  const I64_MAX: nat := 0x7FFF_FFFF_FFFF_FFFF

  // ------------------------------------------------------------------------------------------
  // The proleptic Gregorian calendar
  // ------------------------------------------------------------------------------------------

  predicate Leap(year: int) { year % 4 == 0 && (year % 100 != 0 || year % 400 == 0) }

  function MonthLength(year: int, month: int): int {
    if month == 2 then if Leap(year) then 29 else 28
    else if month in {4, 6, 9, 11} then 30 else 31
  }

  function YearLength(year: int): int { if Leap(year) then 366 else 365 }

  /** Days from 1970-01-01 to the first of January, year by year. */
  function DaysBeforeYear(year: int): (n: int)
    requires year >= 1970
    ensures n >= 0
    decreases year
  {
    if year == 1970 then 0 else DaysBeforeYear(year - 1) + YearLength(year - 1)
  }

  /** Days from the first of January to the first of the month, month by month. */
  function DaysBeforeMonth(year: int, month: int): (n: int)
    requires 1 <= month <= 12
    ensures n >= 0
    decreases month
  {
    if month == 1 then 0 else DaysBeforeMonth(year, month - 1) + MonthLength(year, month - 1)
  }

  predicate ValidDate(d: Date) {
    d.year >= 1970 && 1 <= d.month <= 12 && 1 <= d.day <= MonthLength(d.year, d.month)
  }

  predicate ValidTime(t: Time) { 0 <= t.hour < 24 && 0 <= t.minute < 60 && 0 <= t.second < 60 }

  function DayNumber(d: Date): int
    requires ValidDate(d)
  {
    DaysBeforeYear(d.year) + DaysBeforeMonth(d.year, d.month) + d.day - 1
  }

  /** The seconds since the epoch. */
  function SecondCount(d: Date, t: Time): int
    requires ValidDate(d) && ValidTime(t)
  {
    DAY * DayNumber(d) + 3600 * t.hour + 60 * t.minute + t.second
  }

  // ------------------------------------------------------------------------------------------
  // `utc_parts`
  // ------------------------------------------------------------------------------------------

  function TimeOf(secs: nat): Time {
    var rem := secs % DAY;
    Time(rem / 3600, rem % 3600 / 60, rem % 60)
  }

  /** The year of the era and the day of that year, counted from March. */
  function YearOfEra(doe: nat): int { (doe - doe / 1460 + doe / 36524 - doe / 146096) / 365 }

  function DayOfYear(doe: nat): int {
    var yoe := YearOfEra(doe);
    doe - (365 * yoe + yoe / 4 - yoe / 100)
  }

  /** Day `doy` of the year that begins in March. */
  function FromMarch(year: int, doy: int): Date {
    var mp := (5 * doy + 2) / 153;
    var day := doy - (153 * mp + 2) / 5 + 1;
    var month := if mp < 10 then mp + 3 else mp - 9;
    Date(year + (if month <= 2 then 1 else 0), month, day)
  }

  function DateOf(secs: nat): Date {
    var z := secs / DAY + 719468;
    var era, doe := z / 146097, z % 146097;
    FromMarch(YearOfEra(doe) + era * 400, DayOfYear(doe))
  }

  function Clamp(year: int): (y: int)
    ensures 1980 <= y <= 2107 && (1980 <= year <= 2107 ==> y == year)
  {
    if year < 1980 then 1980 else if year > 2107 then 2107 else year
  }

  /** The six parts of an epoch; an epoch beyond i64 counts as the last one within. */
  function UtcParts(epoch: nat): (int, int, int, int, int, int) {
    var secs := if epoch < I64_MAX then epoch else I64_MAX;
    var d, t := DateOf(secs), TimeOf(secs);
    (Clamp(d.year), d.month, d.day, t.hour, t.minute, t.second)
  }

  // ------------------------------------------------------------------------------------------
  // The formula inverts the calendar
  // ------------------------------------------------------------------------------------------

  /** The day of an era as centuries, four-year cycles, years and days. */
  lemma EraSplits(doe: nat) returns (c: int, q: int, k: int, u: int)
    requires doe < 146097
    ensures 0 <= c <= 3 && 0 <= q <= 24 && 0 <= k <= 3 && 0 <= u <= 365
    ensures doe == 36524 * c + 1461 * q + 365 * k + u
    ensures u == 365 ==> k == 3 && (q < 24 || c == 3)
  {
    c := if doe / 36524 < 3 then doe / 36524 else 3;
    var r := doe - 36524 * c;
    q := r / 1461;
    var t := r - 1461 * q;
    k := if t / 365 < 3 then t / 365 else 3;
    u := t - 365 * k;
  }

  lemma EraParts(doe: nat, c: int, q: int, k: int, u: int)
    requires doe < 146097 && 0 <= c <= 3 && 0 <= q <= 24 && 0 <= k <= 3 && 0 <= u <= 365
    requires doe == 36524 * c + 1461 * q + 365 * k + u && (u == 365 ==> k == 3 && (q < 24 || c == 3))
    ensures YearOfEra(doe) == 100 * c + 4 * q + k && DayOfYear(doe) == u
  {
    var e := (24 * c + q + 365 * k + u) / 1460;
    Days1460(doe, c, q, k, u);
    Days36524(doe, c, q, k, u);
    var yoe := 100 * c + 4 * q + k;
    assert 0 <= u - e < 365;
    assert YearOfEra(doe) == (365 * yoe + (u - e)) / 365 == yoe;
    assert yoe / 4 == 25 * c + q && yoe / 100 == c;
  }

  lemma Days1460(doe: nat, c: int, q: int, k: int, u: int)
    requires 0 <= c && 0 <= q && 0 <= k && 0 <= u && doe == 36524 * c + 1461 * q + 365 * k + u
    ensures doe / 1460 == 25 * c + q + (24 * c + q + 365 * k + u) / 1460
  {
    assert doe == 1460 * (25 * c + q) + (24 * c + q + 365 * k + u);
  }

  lemma Days36524(doe: nat, c: int, q: int, k: int, u: int)
    requires doe < 146097 && 0 <= c <= 3 && 0 <= q <= 24 && 0 <= k <= 3 && 0 <= u <= 365
    requires doe == 36524 * c + 1461 * q + 365 * k + u && (u == 365 ==> k == 3 && (q < 24 || c == 3))
    ensures doe / 36524 - doe / 146096 == c
  {
    if doe < 146096 {
      assert 0 <= doe - 36524 * c < 36524;
    }
  }

  /** Leap years before `year`. */
  function Leaps(year: int): int { (year - 1) / 4 - (year - 1) / 100 + (year - 1) / 400 }

  lemma LeapsStep(year: int)
    requires year >= 1970
    ensures Leaps(year + 1) == Leaps(year) + if Leap(year) then 1 else 0
  {
    var y := year - 1;
    assert year / 4 == y / 4 + (if year % 4 == 0 then 1 else 0);
    assert year / 100 == y / 100 + (if year % 100 == 0 then 1 else 0);
    assert year / 400 == y / 400 + (if year % 400 == 0 then 1 else 0);
    assert year % 400 == 0 ==> year % 100 == 0;
    assert year % 100 == 0 ==> year % 4 == 0;
  }

  lemma {:induction false} YearsInDays(year: int)
    requires year >= 1970
    ensures DaysBeforeYear(year) == 365 * (year - 1970) + Leaps(year) - 477
    decreases year
  {
    if year > 1970 {
      YearsInDays(year - 1);
      LeapsStep(year - 1);
    }
  }

  /** The first of March opens a year whose leap day, if any, comes last. */
  lemma MonthsFromMarch(doy: int, mp: int, day: int)
    requires 0 <= doy <= 365 && mp == (5 * doy + 2) / 153 && day == doy - (153 * mp + 2) / 5 + 1
    ensures 0 <= mp <= 11 && doy == (153 * mp + 2) / 5 + day - 1
    ensures 1 <= day <= match mp case 1 => 30 case 3 => 30 case 6 => 30 case 8 => 30 case 11 => 29 case _ => 31
  {
  }

  /** Days from the first of March to the first of the month `mp` months later. */
  lemma MarchTable(year: int, mp: int)
    requires 0 <= mp <= 11
    ensures var before := (153 * mp + 2) / 5;
      if mp < 10 then DaysBeforeMonth(year, mp + 3) == 59 + (if Leap(year) then 1 else 0) + before
      else DaysBeforeMonth(year, mp - 9) == before - 306
  {
    var l := if Leap(year) then 1 else 0;
    assert DaysBeforeMonth(year, 1) == 0 && DaysBeforeMonth(year, 2) == 31;
    assert DaysBeforeMonth(year, 3) == 59 + l;
    assert DaysBeforeMonth(year, 4) == 90 + l;
    assert DaysBeforeMonth(year, 5) == 120 + l;
    assert DaysBeforeMonth(year, 6) == 151 + l;
    assert DaysBeforeMonth(year, 7) == 181 + l;
    assert DaysBeforeMonth(year, 8) == 212 + l;
    assert DaysBeforeMonth(year, 9) == 243 + l;
    assert DaysBeforeMonth(year, 10) == 273 + l;
    assert DaysBeforeMonth(year, 11) == 304 + l;
    assert DaysBeforeMonth(year, 12) == 334 + l;
  }

  /** What the parts of an era say of its year. */
  lemma YearFacts(days: nat, era: int, c: int, q: int, k: int, u: int)
    requires 0 <= c <= 3 && 0 <= q <= 24 && 0 <= k <= 3 && 0 <= u <= 365
    requires days + 719468 == 146097 * era + 36524 * c + 1461 * q + 365 * k + u
    ensures var year := 400 * era + 100 * c + 4 * q + k;
      year >= 1969 && 365 * year + Leaps(year + 1) + u == days + 719468
  {
    var year := 400 * era + 100 * c + 4 * q + k;
    Quotient(year, 4, 100 * era + 25 * c + q, k);
    Quotient(year, 100, 4 * era + c, 4 * q + k);
    Quotient(year, 400, era, 100 * c + 4 * q + k);
    assert Leaps(year + 1) == 97 * era + 24 * c + q;
    assert era >= 4;
  }

  lemma Quotient(n: int, d: int, quotient: int, rest: int)
    requires d in {4, 100, 400} && n == d * quotient + rest && 0 <= rest < d
    ensures n / d == quotient && n % d == rest
  {
  }

  /** The 29th of February exists when the formula says so. */
  lemma LastDay(era: int, c: int, q: int)
    requires 0 <= c <= 3 && 0 <= q <= 24 && (q < 24 || c == 3)
    ensures Leap(400 * era + 100 * c + 4 * q + 4)
  {
    var year := 400 * era + 100 * c + 4 * q + 4;
    Quotient(year, 4, 100 * era + 25 * c + q + 1, 0);
    if q < 24 {
      Quotient(year, 100, 4 * era + c, 4 * q + 4);
    } else {
      Quotient(year, 400, era + 1, 0);
    }
  }

  /** From a year that begins in March to the calendar. */
  lemma FromMarchRight(days: nat, year: int, u: int)
    requires year >= 1969 && 0 <= u <= 365 && 365 * year + Leaps(year + 1) + u == days + 719468
    requires u == 365 ==> Leap(year + 1)
    ensures ValidDate(FromMarch(year, u)) && DayNumber(FromMarch(year, u)) == days
  {
    var mp := (5 * u + 2) / 153;
    var day := u - (153 * mp + 2) / 5 + 1;
    MonthsFromMarch(u, mp, day);
    YearsInDays(year + 1);
    if mp < 10 {
      assert year >= 1970 by { SixtyNine(); }
      hide Leaps;
      FromSpring(days, year, u, mp, day);
    } else {
      hide Leaps;
      MarchTable(year + 1, mp);
    }
  }

  /** March to December lie in the year they are counted from. */
  lemma FromSpring(days: nat, year: int, u: int, mp: int, day: int)
    requires year >= 1970 && 0 <= mp < 10 && u == (153 * mp + 2) / 5 + day - 1
    requires 365 * year + Leaps(year + 1) + u == days + 719468 && 1 <= day <= MonthLength(year, mp + 3)
    requires DaysBeforeYear(year + 1) == 365 * (year + 1 - 1970) + Leaps(year + 1) - 477
    ensures ValidDate(Date(year, mp + 3, day)) && DayNumber(Date(year, mp + 3, day)) == days
  {
    hide Leaps, DaysBeforeMonth;
    MarchTable(year, mp);
    assert DaysBeforeYear(year + 1) == DaysBeforeYear(year) + YearLength(year);
  }

  lemma SixtyNine()
    ensures Leaps(1970) == 477
  {
  }

  /** The formula yields a valid date with the right day number, for every number of seconds. */
  lemma DateIsRight(secs: nat)
    ensures ValidDate(DateOf(secs)) && DayNumber(DateOf(secs)) == secs / DAY
  {
    hide YearOfEra, DayOfYear, FromMarch, ValidDate, DayNumber, Leaps, Leap;
    var days := secs / DAY;
    var era, doe := (days + 719468) / 146097, (days + 719468) % 146097;
    var c, q, k, u := EraSplits(doe);
    EraParts(doe, c, q, k, u);
    var year := 400 * era + 100 * c + 4 * q + k;
    YearFacts(days, era, c, q, k, u);
    if u == 365 {
      LastDay(era, c, q);
    }
    FromMarchRight(days, year, u);
  }

  // ------------------------------------------------------------------------------------------
  // Uniqueness and order
  // ------------------------------------------------------------------------------------------

  predicate DateBefore(a: Date, b: Date) {
    a.year < b.year || (a.year == b.year && (a.month < b.month || (a.month == b.month && a.day < b.day)))
  }

  predicate TimeBefore(a: Time, b: Time) {
    a.hour < b.hour || (a.hour == b.hour && (a.minute < b.minute || (a.minute == b.minute && a.second < b.second)))
  }

  predicate Before(d: Date, t: Time, e: Date, u: Time) { DateBefore(d, e) || (d == e && TimeBefore(t, u)) }

  lemma {:induction false} MonthsGrow(year: int, month: int, later: int)
    requires 1 <= month < later <= 12
    ensures DaysBeforeMonth(year, month) + MonthLength(year, month) <= DaysBeforeMonth(year, later)
    decreases later
  {
    if later > month + 1 {
      MonthsGrow(year, month, later - 1);
    }
  }

  lemma {:induction false} YearsGrow(year: int, later: int)
    requires 1970 <= year < later
    ensures DaysBeforeYear(year) + YearLength(year) <= DaysBeforeYear(later)
    decreases later
  {
    if later > year + 1 {
      YearsGrow(year, later - 1);
    }
  }

  /** A date is within its year. */
  lemma WithinYear(d: Date)
    requires ValidDate(d)
    ensures 0 <= DaysBeforeMonth(d.year, d.month) + d.day - 1 < YearLength(d.year)
  {
    MarchTable(d.year, 9);
    assert DaysBeforeMonth(d.year, 12) + 31 == YearLength(d.year);
    if d.month < 12 {
      MonthsGrow(d.year, d.month, 12);
    }
  }

  /** A later date has a greater day number. */
  lemma DaysGrow(d: Date, e: Date)
    requires ValidDate(d) && ValidDate(e) && DateBefore(d, e)
    ensures DayNumber(d) < DayNumber(e)
  {
    WithinYear(d);
    WithinYear(e);
    if d.year < e.year {
      YearsGrow(d.year, e.year);
    } else if d.month < e.month {
      MonthsGrow(d.year, d.month, e.month);
    }
  }

  /** The count of seconds orders valid dates and times, so no two of them share one. */
  lemma CountOrders(d: Date, t: Time, e: Date, u: Time)
    requires ValidDate(d) && ValidTime(t) && ValidDate(e) && ValidTime(u)
    ensures Before(d, t, e, u) <==> SecondCount(d, t) < SecondCount(e, u)
    ensures SecondCount(d, t) == SecondCount(e, u) <==> d == e && t == u
  {
    hide ValidDate, DayNumber;
    if DateBefore(d, e) {
      DaysGrow(d, e);
    } else if DateBefore(e, d) {
      DaysGrow(e, d);
    } else {
      assert d == e;
    }
  }

  /** Before the clamp of the year, the parts of an epoch are the one valid date and time that lies that many seconds
      after 1970-01-01T00:00:00. */
  lemma PartsAreRight(secs: nat, d: Date, t: Time)
    requires ValidDate(d) && ValidTime(t)
    ensures ValidDate(DateOf(secs)) && ValidTime(TimeOf(secs)) && SecondCount(DateOf(secs), TimeOf(secs)) == secs
    ensures SecondCount(d, t) == secs <==> d == DateOf(secs) && t == TimeOf(secs)
  {
    PartsCount(secs);
    hide *;
    CountOrders(d, t, DateOf(secs), TimeOf(secs));
  }

  lemma PartsCount(secs: nat)
    ensures ValidDate(DateOf(secs)) && ValidTime(TimeOf(secs)) && SecondCount(DateOf(secs), TimeOf(secs)) == secs
  {
    hide ValidDate, DayNumber, DateOf;
    DateIsRight(secs);
  }

  /** And they are strictly increasing. */
  lemma PartsIncrease(a: nat, b: nat)
    ensures a < b <==> Before(DateOf(a), TimeOf(a), DateOf(b), TimeOf(b))
  {
    hide ValidDate, DayNumber, DateOf, Before;
    DateIsRight(a);
    DateIsRight(b);
    PartsAreRight(a, DateOf(a), TimeOf(a));
    PartsAreRight(b, DateOf(b), TimeOf(b));
    CountOrders(DateOf(a), TimeOf(a), DateOf(b), TimeOf(b));
  }

  /** The seconds at which the years 1980 and 2108 begin. */
  const YEAR_1980: nat := 315532800
  const YEAR_2108: nat := 4354819200

  lemma FatYears(secs: nat)
    ensures DateOf(secs).year >= 1980 <==> secs >= YEAR_1980
    ensures DateOf(secs).year >= 2108 <==> secs >= YEAR_2108
  {
    Boundaries();
    PartsCount(secs);
    hide DayNumber, DaysBeforeYear, DaysBeforeMonth, DateOf, SecondCount, TimeOf;
    CountOrders(DateOf(secs), TimeOf(secs), Date(1980, 1, 1), Time(0, 0, 0));
    CountOrders(DateOf(secs), TimeOf(secs), Date(2108, 1, 1), Time(0, 0, 0));
  }

  lemma Boundaries()
    ensures SecondCount(Date(1980, 1, 1), Time(0, 0, 0)) == YEAR_1980
    ensures SecondCount(Date(2108, 1, 1), Time(0, 0, 0)) == YEAR_2108
  {
    YearsInDays(1980);
    YearsInDays(2108);
  }

  /** The parts of every epoch: those of the calendar, except that a year before 1980 becomes 1980 and one after 2107
      becomes 2107, and that an epoch beyond 63 bits counts as the last within them. */
  lemma UtcPartsAre(epoch: nat, d: Date, t: Time)
    requires ValidDate(d) && ValidTime(t)
    requires SecondCount(d, t) == if epoch <= 0x7FFF_FFFF_FFFF_FFFF then epoch else 0x7FFF_FFFF_FFFF_FFFF
    ensures var (year, month, day, hour, minute, second) := UtcParts(epoch);
      && year == (if epoch < 315532800 then 1980 else if epoch >= 4354819200 then 2107 else d.year)
      && month == d.month && day == d.day && hour == t.hour && minute == t.minute && second == t.second
  {
    hide ValidDate, DayNumber, DateOf, SecondCount, TimeOf;
    var secs := if epoch <= I64_MAX then epoch else I64_MAX;
    PartsAreRight(secs, d, t);
    FatYears(secs);
  }

  /** Within the years that a FAT date can hold, `UtcParts` is the calendar. */
  lemma UtcPartsAreRight(epoch: nat)
    requires epoch <= I64_MAX && 1980 <= DateOf(epoch).year <= 2107
    ensures var (year, month, day, hour, minute, second) := UtcParts(epoch);
      var d, t := Date(year, month, day), Time(hour, minute, second);
      ValidDate(d) && ValidTime(t) && SecondCount(d, t) == epoch
  {
    hide ValidDate, DayNumber, DateOf;
    DateIsRight(epoch);
    PartsAreRight(epoch, DateOf(epoch), TimeOf(epoch));
  }
}
