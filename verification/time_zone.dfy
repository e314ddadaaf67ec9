/** `makeStartEndTZ` of the booking flow's time helpers (`time.utils`): the instant at which a
    local date and time in a zone begins, found by reading a first guess back through the zone
    and correcting by the difference.

    A zone is the function `Intl.DateTimeFormat(..., { timeZone })` computes: from an instant in
    milliseconds to the wall-clock reading shown there. `FixedOffsetZone` is the zones of constant
    offset; the theorems are stated for those. */
module TimeZone {
  import opened Wrappers
  import opened Text
  import opened Calendar
  import opened TimeFormats

  /** A span of instants in milliseconds, start included, end excluded. */
  datatype Interval = Interval(start: int, end: int)

  type Zone = int -> Wall

  /** The wall time named by a date string and a time string, each read through
      `split(...).map(Number)`; `None` when a part is `NaN`. */
  function DesiredWall(ymd: string, hhmm: string): Option<Wall> {
    var y, m, d := NumberField(ymd, '-', 0), NumberField(ymd, '-', 1), NumberField(ymd, '-', 2);
    var h, min := NumberField(hhmm, ':', 0), NumberField(hhmm, ':', 1);
    if y.Some? && m.Some? && d.Some? && h.Some? && min.Some?
    then Some(Wall(y.value, m.value, d.value, h.value, min.value))
    else None
  }

  /** A well-shaped date and time name the wall time their digits write. */
  lemma DesiredWallOfShapes(ymd: string, hhmm: string)
    requires ShapeYMD(ymd) && ShapeHHmm(hhmm)
    ensures DesiredWall(ymd, hhmm)
         == Some(Wall(DigitsValue(ymd[..4]), DigitsValue(ymd[5..7]), DigitsValue(ymd[8..]),
                      DigitsValue(hhmm[..2]), DigitsValue(hhmm[3..])))
  {
    YmdFields(ymd);
    ClockFields(hhmm);
  }

  /** `Date.UTC(y, m - 1, d, H, MIN, 0)`: the wall time read as if it were UTC. */
  function GuessMs(w: Wall): int {
    DateUtcMs(w.year, w.month - 1, w.day, w.hour, w.minute)
  }

  /** The minute count the source compares wall times by: every month 31 days long. */
  function EncodedMinutes(w: Wall): int {
    (((w.year * 12 + (w.month - 1)) * 31 + w.day) * 24 + w.hour) * 60 + w.minute
  }

  /** Minutes since the epoch of a wall time taken as UTC, counted with real month lengths and
      the roll-over `Date.UTC` applies (no remapping of years 0-99). */
  function TrueMinutes(w: Wall): int {
    MakeDay(w.year, w.month - 1, w.day) * 1440 + w.hour * 60 + w.minute
  }

  /** The source's start for wall time `w`: the guess moved back by the encoded difference
      between what the zone shows for it and `w`. */
  function AsWrittenStart(w: Wall, zone: Zone): int {
    var guess := GuessMs(w);
    guess - (EncodedMinutes(zone(guess)) - EncodedMinutes(w)) * 60000
  }

  /** The start with the difference measured in real days rather than 31-day months. */
  function CorrectedStart(w: Wall, zone: Zone): int {
    var guess := GuessMs(w);
    guess - (TrueMinutes(zone(guess)) - TrueMinutes(w)) * 60000
  }

  /** `makeStartEndTZ` as written; the end is one hour after the start. `None` where formatting
      the invalid guess throws. */
  function StartEndAsWritten(ymd: string, hhmm: string, zone: Zone): (r: Option<Interval>)
    ensures r.Some? <==> DesiredWall(ymd, hhmm).Some?
    ensures r.Some? ==> r.value.end == r.value.start + 3600000
  {
    match DesiredWall(ymd, hhmm)
    case None => None
    case Some(w) => Some(Interval(AsWrittenStart(w, zone), AsWrittenStart(w, zone) + 3600000))
  }

  /** `makeStartEndTZ` with the corrected difference: the definition the rest of the model
      uses. */
  function StartEndTZ(ymd: string, hhmm: string, zone: Zone): (r: Option<Interval>)
    ensures r.Some? <==> DesiredWall(ymd, hhmm).Some?
    ensures r.Some? ==> r.value.end == r.value.start + 3600000
  {
    match DesiredWall(ymd, hhmm)
    case None => None
    case Some(w) => Some(Interval(CorrectedStart(w, zone), CorrectedStart(w, zone) + 3600000))
  }

  /** Once the strings name a wall time, the interval is the corrected start and the hour after
      it. */
  lemma StartEndTZOf(ymd: string, hhmm: string, zone: Zone, w: Wall)
    requires DesiredWall(ymd, hhmm) == Some(w)
    ensures StartEndTZ(ymd, hhmm, zone)
         == Some(Interval(CorrectedStart(w, zone), CorrectedStart(w, zone) + 3600000))
  {
  }

  /** The same for the source's interval. */
  lemma StartEndAsWrittenOf(ymd: string, hhmm: string, zone: Zone, w: Wall)
    requires DesiredWall(ymd, hhmm) == Some(w)
    ensures StartEndAsWritten(ymd, hhmm, zone)
         == Some(Interval(AsWrittenStart(w, zone), AsWrittenStart(w, zone) + 3600000))
  {
  }

  lemma TrueMinutesOfValid(w: Wall)
    requires 1 <= w.month <= 12
    ensures TrueMinutes(w) == MinuteOf(w)
  {
    MakeDayInYear(w.year, w.month, w.day);
  }

  /** For years from 100 on, the guess is the wall time's minute number in milliseconds. */
  lemma GuessIsMinute(w: Wall)
    requires 1 <= w.month <= 12 && w.year >= 100
    ensures GuessMs(w) == MinuteOf(w) * 60000
  {
    MakeDayInYear(w.year, w.month, w.day);
  }

  /** A zone of constant offset shows minute `m` as the UTC reading of `m` plus the offset. */
  lemma FixedZoneShows(m: int, offset: int)
    ensures FixedOffsetZone(offset)(m * 60000) == WallAt(m + offset)
  {
    assert (m * 60000) / 60000 == m;
  }

  /** In a zone of constant offset the corrected start is the wanted minute less the offset,
      for every real date from year 100 on. */
  lemma CorrectedStartValue(w: Wall, offset: int)
    requires ValidWall(w) && w.year >= 100
    ensures CorrectedStart(w, FixedOffsetZone(offset)) == (MinuteOf(w) - offset) * 60000
  {
    GuessIsMinute(w);
    var g := MinuteOf(w);
    FixedZoneShows(g, offset);
    TrueMinutesOfValid(WallAt(g + offset));
    TrueMinutesOfValid(w);
  }

  /** ... so it shows exactly the wanted wall time there. */
  lemma CorrectedExact(w: Wall, offset: int)
    requires ValidWall(w) && w.year >= 100
    ensures CorrectedStart(w, FixedOffsetZone(offset)) == (MinuteOf(w) - offset) * 60000
    ensures FixedOffsetZone(offset)(CorrectedStart(w, FixedOffsetZone(offset))) == w
  {
    CorrectedStartValue(w, offset);
    FixedZoneShowsWall(CorrectedStart(w, FixedOffsetZone(offset)), w, offset);
  }

  /** A zone of constant offset shows the wanted minute less the offset as the wanted time. */
  lemma FixedZoneShowsWall(x: int, w: Wall, offset: int)
    requires ValidWall(w) && x == (MinuteOf(w) - offset) * 60000
    ensures FixedOffsetZone(offset)(x) == w
  {
    FixedZoneShows(MinuteOf(w) - offset, offset);
    WallRoundTrip(w);
  }

  /** `makeStartEndTZ`, corrected, in any zone of constant offset: the interval exists and its
      start shows the wanted date and time there. */
  lemma StartEndExactInFixedZone(ymd: string, hhmm: string, offset: int, w: Wall)
    requires DesiredWall(ymd, hhmm) == Some(w) && ValidWall(w) && w.year >= 100
    ensures StartEndTZ(ymd, hhmm, FixedOffsetZone(offset)).Some?
    ensures FixedOffsetZone(offset)(StartEndTZ(ymd, hhmm, FixedOffsetZone(offset)).value.start) == w
  {
    CorrectedExact(w, offset);
  }

  /** ... and that start is the wanted minute less the offset. */
  lemma StartEndInFixedZone(ymd: string, hhmm: string, offset: int, w: Wall)
    requires DesiredWall(ymd, hhmm) == Some(w) && ValidWall(w) && w.year >= 100
    ensures var start := (MinuteOf(w) - offset) * 60000;
      StartEndTZ(ymd, hhmm, FixedOffsetZone(offset)) == Some(Interval(start, start + 3600000))
  {
    StartEndTZOf(ymd, hhmm, FixedOffsetZone(offset), w);
    IntervalOfCorrected(StartEndTZ(ymd, hhmm, FixedOffsetZone(offset)), w, offset);
  }

  lemma IntervalOfCorrected(r: Option<Interval>, w: Wall, offset: int)
    requires ValidWall(w) && w.year >= 100
    requires var c := CorrectedStart(w, FixedOffsetZone(offset)); r == Some(Interval(c, c + 3600000))
    ensures var start := (MinuteOf(w) - offset) * 60000; r == Some(Interval(start, start + 3600000))
  {
    CorrectedStartValue(w, offset);
  }

  /** The month count of a wall time: consecutive months differ by one. */
  function MonthNumber(w: Wall): int {
    w.year * 12 + w.month - 1
  }

  /** The encoded difference between two wall times agrees with the real one. */
  predicate EncodingExact(seen: Wall, want: Wall)
    requires 1 <= seen.month <= 12 && 1 <= want.month <= 12
  {
    EncodedMinutes(seen) - EncodedMinutes(want) == MinuteOf(seen) - MinuteOf(want)
  }

  /** Within one month the encoding is exact; across a month boundary it is exact iff the
      earlier month has 31 days. */
  lemma EncodingExactByMonth(a: Wall, b: Wall)
    requires ValidWall(a) && ValidWall(b)
    ensures MonthNumber(a) == MonthNumber(b) ==> EncodingExact(a, b)
    ensures MonthNumber(a) + 1 == MonthNumber(b) ==>
      (EncodingExact(a, b) <==> DaysInMonth(a.year, a.month) == 31)
    ensures MonthNumber(b) + 1 == MonthNumber(a) ==>
      (EncodingExact(a, b) <==> DaysInMonth(b.year, b.month) == 31)
  {
    if MonthNumber(a) == MonthNumber(b) {
      assert a.year == b.year && a.month == b.month;
    }
    if MonthNumber(a) + 1 == MonthNumber(b) {
      NextMonthAfter(a, b);
    }
    if MonthNumber(b) + 1 == MonthNumber(a) {
      NextMonthAfter(b, a);
    }
  }

  /** When `b` is in the month after `a`, its first day is `DaysInMonth` days after `a`'s. */
  lemma NextMonthAfter(a: Wall, b: Wall)
    requires ValidWall(a) && ValidWall(b) && MonthNumber(a) + 1 == MonthNumber(b)
    ensures DaysFromCivil(b.year, b.month, 1)
         == DaysFromCivil(a.year, a.month, 1) + DaysInMonth(a.year, a.month)
    ensures EncodedMinutes(b) - EncodedMinutes(a)
         == (31 + b.day - a.day) * 1440 + (b.hour - a.hour) * 60 + b.minute - a.minute
  {
    NextMonthStart(a.year, a.month);
    if a.month < 12 {
      assert b.year == a.year && b.month == a.month + 1;
    } else {
      assert b.year == a.year + 1 && b.month == 1;
    }
  }

  /** In a zone of constant offset, the source's start is the wanted minute less the encoded
      difference between the zone's reading of the guess and the wanted time. */
  lemma AsWrittenStartValue(w: Wall, offset: int)
    requires ValidWall(w) && w.year >= 100
    ensures var seen := WallAt(MinuteOf(w) + offset);
      AsWrittenStart(w, FixedOffsetZone(offset))
        == (MinuteOf(w) - (EncodedMinutes(seen) - EncodedMinutes(w))) * 60000
  {
    GuessIsMinute(w);
    FixedZoneShows(MinuteOf(w), offset);
  }

  /** ... and it shows the reading of that minute moved by the offset. */
  lemma AsWrittenShows(w: Wall, offset: int)
    requires ValidWall(w) && w.year >= 100
    ensures var seen := WallAt(MinuteOf(w) + offset);
      var delta := EncodedMinutes(seen) - EncodedMinutes(w);
      FixedOffsetZone(offset)(AsWrittenStart(w, FixedOffsetZone(offset)))
        == WallAt(MinuteOf(w) - delta + offset)
  {
    var seen := WallAt(MinuteOf(w) + offset);
    var delta := EncodedMinutes(seen) - EncodedMinutes(w);
    AsWrittenStartValue(w, offset);
    FixedZoneShows(MinuteOf(w) - delta, offset);
  }

  /** Under a constant offset, the source's start shows the wanted wall time iff the encoded
      and the real difference between the zone's reading of the guess and the wanted time
      agree. */
  lemma AsWrittenExactIff(w: Wall, offset: int)
    requires ValidWall(w) && w.year >= 100
    ensures var zone := FixedOffsetZone(offset);
      zone(AsWrittenStart(w, zone)) == w <==> EncodingExact(WallAt(MinuteOf(w) + offset), w)
  {
    var g := MinuteOf(w);
    var seen := WallAt(g + offset);
    var delta := EncodedMinutes(seen) - EncodedMinutes(w);
    AsWrittenShows(w, offset);
    WallAtIff(g - delta + offset, w);
  }

  /** Hence the source's start is right whenever the zone's reading of the guess falls in the
      wanted month, and across a month boundary exactly when the earlier month has 31 days. */
  lemma AsWrittenExactByMonth(w: Wall, offset: int)
    requires ValidWall(w) && w.year >= 100
    ensures var zone := FixedOffsetZone(offset);
      var seen := WallAt(MinuteOf(w) + offset);
      var exact := zone(AsWrittenStart(w, zone)) == w;
      (MonthNumber(seen) == MonthNumber(w) ==> exact)
      && (MonthNumber(seen) + 1 == MonthNumber(w) ==>
            (exact <==> DaysInMonth(seen.year, seen.month) == 31))
      && (MonthNumber(w) + 1 == MonthNumber(seen) ==>
            (exact <==> DaysInMonth(w.year, w.month) == 31))
  {
    AsWrittenExactIff(w, offset);
    EncodingExactByMonth(WallAt(MinuteOf(w) + offset), w);
  }

  /** The same, for the interval `makeStartEndTZ` returns. */
  lemma StartEndAsWrittenExactIff(ymd: string, hhmm: string, offset: int, w: Wall)
    requires DesiredWall(ymd, hhmm) == Some(w) && ValidWall(w) && w.year >= 100
    ensures var zone := FixedOffsetZone(offset);
      StartEndAsWritten(ymd, hhmm, zone).Some?
      && (zone(StartEndAsWritten(ymd, hhmm, zone).value.start) == w
          <==> EncodingExact(WallAt(MinuteOf(w) + offset), w))
  {
    AsWrittenExactIff(w, offset);
  }

  /** Wherever the encoding is exact for the zone's reading of the guess, the source's start
      and the corrected one coincide, in any zone. */
  lemma AsWrittenAgreesWhenExact(w: Wall, zone: Zone)
    requires 1 <= w.month <= 12 && 1 <= zone(GuessMs(w)).month <= 12
    requires EncodingExact(zone(GuessMs(w)), w)
    ensures AsWrittenStart(w, zone) == CorrectedStart(w, zone)
  {
    TrueMinutesOfValid(zone(GuessMs(w)));
    TrueMinutesOfValid(w);
  }

  /** The same for the intervals: where the strings name a wall time whose guess the zone shows
      with an exact encoding, the source's interval is the corrected one. */
  lemma StartEndAgreesWhenExact(ymd: string, hhmm: string, zone: Zone, w: Wall)
    requires DesiredWall(ymd, hhmm) == Some(w)
    requires 1 <= w.month <= 12 && 1 <= zone(GuessMs(w)).month <= 12
    requires EncodingExact(zone(GuessMs(w)), w)
    ensures StartEndAsWritten(ymd, hhmm, zone) == StartEndTZ(ymd, hhmm, zone)
  {
    StartEndAsWrittenOf(ymd, hhmm, zone, w);
    StartEndTZOf(ymd, hhmm, zone, w);
    IntervalsAgreeWhenExact(StartEndAsWritten(ymd, hhmm, zone), StartEndTZ(ymd, hhmm, zone), w, zone);
  }

  lemma IntervalsAgreeWhenExact(a: Option<Interval>, b: Option<Interval>, w: Wall, zone: Zone)
    requires 1 <= w.month <= 12 && 1 <= zone(GuessMs(w)).month <= 12
    requires EncodingExact(zone(GuessMs(w)), w)
    requires a == Some(Interval(AsWrittenStart(w, zone), AsWrittenStart(w, zone) + 3600000))
    requires b == Some(Interval(CorrectedStart(w, zone), CorrectedStart(w, zone) + 3600000))
    ensures a == b
  {
    AsWrittenAgreesWhenExact(w, zone);
  }

  /** West of UTC, the guess for midnight on the 1st of month `m` shows in the zone as the
      evening of the last day of the month before. */
  lemma FirstOfMonthSeen(y: int, m: int, offset: int)
    requires y >= 100 && 2 <= m <= 12 && -1440 < offset < 0
    ensures var d := DaysInMonth(y, m - 1);
      var seen := Wall(y, m - 1, d, (1440 + offset) / 60, (1440 + offset) % 60);
      WallAt(MinuteOf(Wall(y, m, 1, 0, 0)) + offset) == seen
      && EncodedMinutes(seen) - EncodedMinutes(Wall(y, m, 1, 0, 0)) == (d - 31) * 1440 + offset
  {
    var d := DaysInMonth(y, m - 1);
    var seen := Wall(y, m - 1, d, (1440 + offset) / 60, (1440 + offset) % 60);
    NextMonthStart(y, m - 1);
    assert DaysFromCivil(y, m - 1, d) == DaysFromCivil(y, m, 1) - 1;
    assert MinuteOf(seen) == MinuteOf(Wall(y, m, 1, 0, 0)) + offset;
    WallAtIff(MinuteOf(Wall(y, m, 1, 0, 0)) + offset, seen);
  }

  /** West of UTC, the source's start for midnight on the 1st of month `m` lies `31 - d` days
      after the real instant, `d` the earlier month's length. */
  lemma FirstOfMonthStart(y: int, m: int, offset: int)
    requires y >= 100 && 2 <= m <= 12 && -1440 < offset < 0
    ensures var w := Wall(y, m, 1, 0, 0);
      AsWrittenStart(w, FixedOffsetZone(offset))
        == (MinuteOf(w) + (31 - DaysInMonth(y, m - 1)) * 1440 - offset) * 60000
  {
    AsWrittenStartValue(Wall(y, m, 1, 0, 0), offset);
    FirstOfMonthSeen(y, m, offset);
  }

  /** West of UTC, for midnight on the 1st of a month after a month shorter than 31 days, the
      source's start shows that many days late: on the `32 - d`th, `d` the earlier month's
      length. The corrected start shows midnight on the 1st. */
  lemma AsWrittenFirstOfMonthIsLate(y: int, m: int, offset: int)
    requires y >= 100 && 2 <= m <= 12 && -1440 < offset < 0
    ensures var zone := FixedOffsetZone(offset);
      zone(AsWrittenStart(Wall(y, m, 1, 0, 0), zone)) == Wall(y, m, 32 - DaysInMonth(y, m - 1), 0, 0)
      && zone(CorrectedStart(Wall(y, m, 1, 0, 0), zone)) == Wall(y, m, 1, 0, 0)
  {
    var zone := FixedOffsetZone(offset);
    var w := Wall(y, m, 1, 0, 0);
    var d := DaysInMonth(y, m - 1);
    var late := Wall(y, m, 32 - d, 0, 0);
    assert zone(CorrectedStart(w, zone)) == w by {
      CorrectedExact(w, offset);
    }
    assert zone(AsWrittenStart(w, zone)) == late by {
      FirstOfMonthStart(y, m, offset);
      assert MinuteOf(late) == MinuteOf(w) + (31 - d) * 1440;
      FixedZoneShowsWall(AsWrittenStart(w, zone), late, offset);
    }
  }

  /** 2025-03-01 00:00 at UTC-3: the source's start shows 2025-03-04 00:00 there, three days
      late; the corrected start shows 2025-03-01 00:00. */
  lemma AsWrittenMarchFirstIsLate()
    ensures var zone := FixedOffsetZone(-180);
      zone(AsWrittenStart(Wall(2025, 3, 1, 0, 0), zone)) == Wall(2025, 3, 4, 0, 0)
      && zone(CorrectedStart(Wall(2025, 3, 1, 0, 0), zone)) == Wall(2025, 3, 1, 0, 0)
  {
    AsWrittenFirstOfMonthIsLate(2025, 3, -180);
    assert DaysInMonth(2025, 2) == 28;
  }

  /** West of UTC, the guess for 23:59 on the 1st shows in the zone on the 1st itself. */
  lemma FirstDayEveningSeen(y: int, m: int, offset: int)
    requires y >= 100 && 1 <= m <= 12 && -1440 < offset < 0
    ensures var v := Wall(y, m, 1, 23, 59);
      var seen := Wall(y, m, 1, (1439 + offset) / 60, (1439 + offset) % 60);
      WallAt(MinuteOf(v) + offset) == seen
      && EncodedMinutes(seen) - EncodedMinutes(v) == offset
  {
    var v := Wall(y, m, 1, 23, 59);
    var seen := Wall(y, m, 1, (1439 + offset) / 60, (1439 + offset) % 60);
    assert MinuteOf(seen) == MinuteOf(v) + offset;
    WallAtIff(MinuteOf(v) + offset, seen);
  }

  /** West of UTC, the source's start for 23:59 on the 1st is the real instant. */
  lemma FirstDayEveningStart(y: int, m: int, offset: int)
    requires y >= 100 && 1 <= m <= 12 && -1440 < offset < 0
    ensures AsWrittenStart(Wall(y, m, 1, 23, 59), FixedOffsetZone(offset))
         == (MinuteOf(Wall(y, m, 1, 0, 0)) + 1439 - offset) * 60000
  {
    AsWrittenStartValue(Wall(y, m, 1, 23, 59), offset);
    FirstDayEveningSeen(y, m, offset);
  }

  /** West of UTC, on the 1st of a month after a month shorter than 31 days, the source's
      start for 00:00 comes after its start for 23:59, so the day's booking range
      `[dayStart, dayEnd]` is empty; it is in order exactly when the earlier month has 31 days. */
  lemma AsWrittenDayRangeInverted(y: int, m: int, offset: int)
    requires y >= 100 && 2 <= m <= 12 && -1440 < offset < 0
    ensures var zone := FixedOffsetZone(offset);
      AsWrittenStart(Wall(y, m, 1, 23, 59), zone) < AsWrittenStart(Wall(y, m, 1, 0, 0), zone)
      <==> DaysInMonth(y, m - 1) < 31
  {
    FirstOfMonthStart(y, m, offset);
    FirstDayEveningStart(y, m, offset);
  }

  /** The corrected starts of 00:00 and 23:59 on any real date are 1439 minutes apart in a
      zone of constant offset, so the day's booking range is always in order. */
  lemma CorrectedDayRangeInOrder(y: int, m: int, d: int, offset: int)
    requires ValidDate(y, m, d) && y >= 100
    ensures var zone := FixedOffsetZone(offset);
      CorrectedStart(Wall(y, m, d, 23, 59), zone) == CorrectedStart(Wall(y, m, d, 0, 0), zone) + 1439 * 60000
  {
    CorrectedStartValue(Wall(y, m, d, 0, 0), offset);
    CorrectedStartValue(Wall(y, m, d, 23, 59), offset);
  }
}
