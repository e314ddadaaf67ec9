/** Proleptic Gregorian calendar arithmetic as ECMAScript `Date` performs it: day numbers counted
    from 1970-01-01, `Date.UTC` with its month roll-over and its mapping of years 0-99 to
    1900-1999, and the wall-clock reading of an instant (what the `getUTC*` accessors, or a
    formatter in a fixed-offset zone, report). */
module Calendar {

  predicate IsLeap(y: int) {
    y % 4 == 0 && (y % 100 != 0 || y % 400 == 0)
  }

  function DaysInYear(y: int): int {
    if IsLeap(y) then 366 else 365
  }

  function DaysInMonth(y: int, m: int): int
    requires 1 <= m <= 12
  {
    if m == 2 then (if IsLeap(y) then 29 else 28)
    else if m == 4 || m == 6 || m == 9 || m == 11 then 30
    else 31
  }

  /** Days of the year that precede the first of month `m`. */
  function DaysBeforeMonth(y: int, m: int): int
    requires 1 <= m <= 12
  {
    var base :=
      if m == 1 then 0 else if m == 2 then 31 else if m == 3 then 59 else if m == 4 then 90
      else if m == 5 then 120 else if m == 6 then 151 else if m == 7 then 181
      else if m == 8 then 212 else if m == 9 then 243 else if m == 10 then 273
      else if m == 11 then 304 else 334;
    base + (if m > 2 && IsLeap(y) then 1 else 0)
  }

  predicate ValidDate(y: int, m: int, d: int) {
    1 <= m <= 12 && 1 <= d <= DaysInMonth(y, m)
  }

  lemma MonthStep(y: int, m: int)
    requires 1 <= m < 12
    ensures DaysBeforeMonth(y, m + 1) == DaysBeforeMonth(y, m) + DaysInMonth(y, m)
  {
  }

  lemma MonthEnd(y: int, m: int)
    requires 1 <= m <= 12
    ensures DaysBeforeMonth(y, m) + DaysInMonth(y, m) <= DaysInYear(y)
    ensures m == 12 ==> DaysBeforeMonth(y, m) + DaysInMonth(y, m) == DaysInYear(y)
  {
  }

  // ---------------------------------------------------------------- year starts

  /** Day number of January 1st of year `y`, 1970-01-01 being day 0. */
  function YearStart(y: int): int
    decreases if y >= 1970 then y - 1970 else 1970 - y
  {
    if y == 1970 then 0
    else if y > 1970 then YearStart(y - 1) + DaysInYear(y - 1)
    else YearStart(y + 1) - DaysInYear(y)
  }

  lemma YearStartStep(y: int)
    ensures YearStart(y + 1) == YearStart(y) + DaysInYear(y)
  {
  }

  lemma {:induction false} YearStartGrows(a: int, b: int)
    requires a <= b
    ensures YearStart(a) + 365 * (b - a) <= YearStart(b)
    decreases b - a
  {
    if a < b {
      YearStartGrows(a, b - 1);
      YearStartStep(b - 1);
    }
  }

  lemma YearUnique(n: int, a: int, b: int)
    requires YearStart(a) <= n < YearStart(a + 1)
    requires YearStart(b) <= n < YearStart(b + 1)
    ensures a == b
  {
    if a < b {
      YearStartGrows(a + 1, b);
    } else if b < a {
      YearStartGrows(b + 1, a);
    }
  }

  // ---------------------------------------------------------------- months

  /** The month holding day-of-year `k` (0-based), searched from month `m`. */
  function MonthFrom(y: int, k: int, m: int): (r: int)
    requires 1 <= m <= 12 && DaysBeforeMonth(y, m) <= k < DaysInYear(y)
    ensures 1 <= r <= 12
    ensures DaysBeforeMonth(y, r) <= k < DaysBeforeMonth(y, r) + DaysInMonth(y, r)
    decreases 12 - m
  {
    MonthEnd(y, m);
    if m == 12 then 12
    else if k < DaysBeforeMonth(y, m + 1) then MonthStep(y, m); m
    else MonthFrom(y, k, m + 1)
  }

  lemma MonthUnique(y: int, k: int, a: int, b: int)
    requires 1 <= a <= 12 && 1 <= b <= 12
    requires DaysBeforeMonth(y, a) <= k < DaysBeforeMonth(y, a) + DaysInMonth(y, a)
    requires DaysBeforeMonth(y, b) <= k < DaysBeforeMonth(y, b) + DaysInMonth(y, b)
    ensures a == b
  {
  }

  // ---------------------------------------------------------------- civil dates

  datatype Date = Date(year: int, month: int, day: int)

  /** Day number of a calendar date; `d` may run past the month, as `Date.UTC` allows. */
  function DaysFromCivil(y: int, m: int, d: int): int
    requires 1 <= m <= 12
  {
    YearStart(y) + DaysBeforeMonth(y, m) + d - 1
  }

  /** The calendar date of day number `n`, walking years from the guess `y`. */
  function CivilFrom(n: int, y: int): (dt: Date)
    ensures ValidDate(dt.year, dt.month, dt.day)
    ensures DaysFromCivil(dt.year, dt.month, dt.day) == n
    ensures YearStart(dt.year) <= n < YearStart(dt.year + 1)
    decreases (if n < YearStart(y) then YearStart(y) - n else 0)
            + (if n >= YearStart(y + 1) then n - YearStart(y) else 0)
  {
    YearStartStep(y - 1);
    YearStartStep(y);
    if n < YearStart(y) then CivilFrom(n, y - 1)
    else if n >= YearStart(y + 1) then CivilFrom(n, y + 1)
    else
      var k := n - YearStart(y);
      var m := MonthFrom(y, k, 1);
      Date(y, m, k - DaysBeforeMonth(y, m) + 1)
  }

  /** The calendar date of a day number. */
  function CivilFromDays(n: int): (dt: Date)
    ensures ValidDate(dt.year, dt.month, dt.day)
    ensures DaysFromCivil(dt.year, dt.month, dt.day) == n
    ensures YearStart(dt.year) <= n < YearStart(dt.year + 1)
  {
    CivilFrom(n, 1970)
  }

  /** Every real calendar date survives the trip to a day number and back. */
  lemma CivilRoundTrip(y: int, m: int, d: int)
    requires ValidDate(y, m, d)
    ensures CivilFromDays(DaysFromCivil(y, m, d)) == Date(y, m, d)
  {
    var n := DaysFromCivil(y, m, d);
    MonthEnd(y, m);
    YearStartStep(y);
    var dt := CivilFromDays(n);
    YearUnique(n, dt.year, y);
    MonthUnique(y, n - YearStart(y), dt.month, m);
  }

  /** A day number at or after January 1st of `y` falls in year `y` or later. */
  lemma YearAtLeast(n: int, y: int)
    requires n >= YearStart(y)
    ensures CivilFromDays(n).year >= y
  {
    var dt := CivilFromDays(n);
    MonthEnd(dt.year, dt.month);
    YearStartStep(dt.year);
    if dt.year < y {
      YearStartGrows(dt.year + 1, y);
    }
  }

  /** The first of the month after `(y, m)` comes `DaysInMonth(y, m)` days after the first of `m`. */
  lemma NextMonthStart(y: int, m: int)
    requires 1 <= m <= 12
    ensures m < 12 ==> DaysFromCivil(y, m + 1, 1) == DaysFromCivil(y, m, 1) + DaysInMonth(y, m)
    ensures m == 12 ==> DaysFromCivil(y + 1, 1, 1) == DaysFromCivil(y, m, 1) + DaysInMonth(y, m)
  {
    MonthEnd(y, m);
    YearStartStep(y);
    if m < 12 {
      MonthStep(y, m);
    }
  }

  /** `Date.UTC` day arithmetic: the month index rolls into the year, the day is linear. */
  function MakeDay(year: int, monthIndex: int, day: int): int {
    DaysFromCivil(year + monthIndex / 12, monthIndex % 12 + 1, 1) + day - 1
  }

  /** Inside the year, `MakeDay` is the day number of the date it names. */
  lemma MakeDayInYear(year: int, month: int, day: int)
    requires 1 <= month <= 12
    ensures MakeDay(year, month - 1, day) == DaysFromCivil(year, month, day)
  {
  }

  /** `Date.UTC(year, monthIndex, day, hour, minute, 0)`, in milliseconds. */
  function DateUtcMs(year: int, monthIndex: int, day: int, hour: int, minute: int): int {
    var yr := if 0 <= year <= 99 then 1900 + year else year;
    (MakeDay(yr, monthIndex, day) * 1440 + hour * 60 + minute) * 60000
  }

  // ---------------------------------------------------------------- wall clock

  /** What a formatter shows: date and time to the minute. */
  datatype Wall = Wall(year: int, month: int, day: int, hour: int, minute: int)

  predicate ValidWall(w: Wall) {
    ValidDate(w.year, w.month, w.day) && 0 <= w.hour < 24 && 0 <= w.minute < 60
  }

  /** Minutes since 1970-01-01 00:00 of a wall-clock reading taken as UTC. */
  function MinuteOf(w: Wall): int
    requires 1 <= w.month <= 12
  {
    DaysFromCivil(w.year, w.month, w.day) * 1440 + w.hour * 60 + w.minute
  }

  /** The wall-clock reading of minute number `t` in UTC. */
  function WallAt(t: int): (w: Wall)
    ensures ValidWall(w)
    ensures MinuteOf(w) == t
  {
    WallFrom(t, 1970)
  }

  function WallFrom(t: int, y: int): (w: Wall)
    ensures ValidWall(w)
    ensures MinuteOf(w) == t
    decreases (if t / 1440 < YearStart(y) then YearStart(y) - t / 1440 else 0)
            + (if t / 1440 >= YearStart(y + 1) then t / 1440 - YearStart(y) else 0)
  {
    var n := t / 1440;
    YearStartStep(y - 1);
    YearStartStep(y);
    if n < YearStart(y) then WallFrom(t, y - 1)
    else if n >= YearStart(y + 1) then WallFrom(t, y + 1)
    else
      var dt := CivilFrom(n, y);
      var rem := t % 1440;
      Wall(dt.year, dt.month, dt.day, rem / 60, rem % 60)
  }

  /** Two valid readings with the same minute number are the same reading. */
  lemma MinuteOfInjective(a: Wall, b: Wall)
    requires ValidWall(a) && ValidWall(b) && MinuteOf(a) == MinuteOf(b)
    ensures a == b
  {
    var da := DaysFromCivil(a.year, a.month, a.day);
    var db := DaysFromCivil(b.year, b.month, b.day);
    assert MinuteOf(a) / 1440 == da;
    assert MinuteOf(b) / 1440 == db;
    CivilRoundTrip(a.year, a.month, a.day);
    CivilRoundTrip(b.year, b.month, b.day);
  }

  /** A valid reading is the reading of its own minute number. */
  lemma WallRoundTrip(w: Wall)
    requires ValidWall(w)
    ensures WallAt(MinuteOf(w)) == w
  {
    MinuteOfInjective(WallAt(MinuteOf(w)), w);
  }

  /** The reading of minute `t` is a given valid reading exactly when `t` is its minute
      number. */
  lemma WallAtIff(t: int, w: Wall)
    requires ValidWall(w)
    ensures WallAt(t) == w <==> t == MinuteOf(w)
  {
    if t == MinuteOf(w) {
      WallRoundTrip(w);
    }
  }

  /** A zone with a constant offset from UTC, rendering an instant in milliseconds. */
  function FixedOffsetZone(offsetMinutes: int): int -> Wall {
    t => WallAt(t / 60000 + offsetMinutes)
  }
}
