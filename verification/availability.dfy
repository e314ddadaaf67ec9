/** `getAvailableHoursForCourt` of the booking flow's time helpers (`time.utils`): the day's slot
    grid minus the slots that overlap a booking already stored for the court. The bookings come
    from a caller-supplied `fetch` over the instants from the day's 00:00 to its 23:59, and the
    slot instants from `makeStartEndTZ`. `AvailableHoursForCourtAsWritten` computes with
    `makeStartEndTZ` as written; `AvailableHoursForCourt`, which the bot's flows use here, with
    its corrected form. The two agree wherever the two instants agree, and differ on the 1st of
    a month after a short month in a zone west of UTC, where the source's range is inverted. */
module Availability {
  import opened Wrappers
  import opened Text
  import opened Seqs
  import opened Calendar
  import opened TimeFormats
  import opened TimeSlots
  import opened TimeZone

  /** The times of day the fetched range starts and ends at. */
  const DayFirst: string := "00:00"
  const DayLast: string := "23:59"

  /** The date `ymd.split('-').map(Number)` reads; `None` when a part is `NaN`. */
  function DateOf(ymd: string): (r: Option<Date>)
    ensures r.Some? <==> NumberField(ymd, '-', 0).Some? && NumberField(ymd, '-', 1).Some?
                         && NumberField(ymd, '-', 2).Some?
  {
    var y, m, d := NumberField(ymd, '-', 0), NumberField(ymd, '-', 1), NumberField(ymd, '-', 2);
    if y.Some? && m.Some? && d.Some? then Some(Date(y.value, m.value, d.value)) else None
  }

  /** A formatted minute of the day splits back into its hour and minute. */
  lemma FormattedFields(t: nat)
    requires t < 1440
    ensures NumberField(FormatHHmm(t), ':', 0) == Some(t / 60)
    ensures NumberField(FormatHHmm(t), ':', 1) == Some(t % 60)
  {
    var s := FormatHHmm(t);
    var hh, mm := PadStart2(NatToString(t / 60)), PadStart2(NatToString(t % 60));
    TwoDigitRendering(t / 60);
    TwoDigitRendering(t % 60);
    assert s == hh + ":" + mm;
    assert s[..2] == hh && s[3..] == mm;
    assert ShapeHHmm(s);
    ClockFields(s);
  }

  /** A date string with a formatted minute of the day names that date at that minute, and
      nothing when the date does not read. */
  lemma DesiredWallFormatted(ymd: string, t: nat)
    requires t < 1440
    ensures DesiredWall(ymd, FormatHHmm(t)).Some? <==> DateOf(ymd).Some?
    ensures DateOf(ymd).Some? ==>
      var dt := DateOf(ymd).value;
      DesiredWall(ymd, FormatHHmm(t)) == Some(Wall(dt.year, dt.month, dt.day, t / 60, t % 60))
  {
    FormattedFields(t);
  }

  /** The two bounds of the fetched range are the first and the last minute of the day. */
  lemma DayBoundsFormatted()
    ensures DayFirst == FormatHHmm(0)
    ensures DayLast == FormatHHmm(1439)
  {
    assert NatToString(0) == "0";
    assert NatToString(23) == "23";
    assert NatToString(59) == "59";
  }

  /** The test `start < be && end > bs`: touching intervals do not overlap. */
  predicate Overlaps(start: int, end: int, b: Interval) {
    start < b.end && end > b.start
  }

  /** A grid slot survives when no fetched booking overlaps its `slotMinutes` span. */
  predicate SlotFree(ymd: string, t: string, slotMinutes: int, zone: Zone, existing: seq<Interval>) {
    match StartEndTZ(ymd, t, zone)
    case None => false
    case Some(iv) =>
      !exists b :: b in existing && Overlaps(iv.start, iv.start + slotMinutes * 60000, b)
  }

  /** `getAvailableHoursForCourt`: the day's grid (cut at the current hour for today), minus the
      slots that overlap a booking `fetch` returns for the span from the day's 00:00 to its
      23:59; `None` when the date cannot be read, where the call rejects. */
  function AvailableHoursForCourt(ymd: string, open: string, close: string, slotMinutes: int,
                                  today: string, hour: int, zone: Zone,
                                  fetch: (int, int) -> seq<Interval>): (r: Option<seq<string>>)
    requires slotMinutes > 0
    ensures r.Some? <==> DateOf(ymd).Some?
    ensures r.Some? ==> IsSubsequence(r.value, AvailableHours(ymd, open, close, slotMinutes, today, hour))
  {
    DayBoundsReadable(ymd, zone);
    var base := AvailableHours(ymd, open, close, slotMinutes, today, hour);
    var dayStart, dayEnd := StartEndTZ(ymd, DayFirst, zone), StartEndTZ(ymd, DayLast, zone);
    if dayStart.None? || dayEnd.None? then None
    else
      var existing := fetch(dayStart.value.start, dayEnd.value.start);
      FilterIsSubsequence(base, t => SlotFree(ymd, t, slotMinutes, zone, existing));
      Some(Filter(base, t => SlotFree(ymd, t, slotMinutes, zone, existing)))
  }

  /** The call succeeds exactly when the date reads. */
  lemma DayBoundsReadable(ymd: string, zone: Zone)
    ensures StartEndTZ(ymd, DayFirst, zone).Some? <==> DateOf(ymd).Some?
    ensures StartEndTZ(ymd, DayLast, zone).Some? <==> DateOf(ymd).Some?
  {
    DayBoundsFormatted();
    DesiredWallFormatted(ymd, 0);
    DesiredWallFormatted(ymd, 1439);
  }

  /** Every slot label parses as a time, so a readable date gives every slot an interval. */
  lemma SlotLabelReadable(ymd: string, t: int, zone: Zone)
    requires DateOf(ymd).Some?
    ensures StartEndTZ(ymd, SlotLabel(t), zone).Some?
  {
    DesiredWallFormatted(ymd, t % 1440);
  }

  /** Every slot left is a slot of the base grid, and it is left iff its interval overlaps no
      booking fetched for the day's range; with a readable date every base slot has an
      interval. */
  lemma AvailableHoursForCourtSpec(ymd: string, open: string, close: string, slotMinutes: int,
                                   today: string, hour: int, zone: Zone,
                                   fetch: (int, int) -> seq<Interval>)
    requires slotMinutes > 0
    ensures var r := AvailableHoursForCourt(ymd, open, close, slotMinutes, today, hour, zone, fetch);
      var base := AvailableHours(ymd, open, close, slotMinutes, today, hour);
      (r.Some? <==> DateOf(ymd).Some?)
      && (r.Some? ==> IsSubsequence(r.value, base))
      && (r.Some? ==>
            var existing := fetch(StartEndTZ(ymd, DayFirst, zone).value.start,
                                  StartEndTZ(ymd, DayLast, zone).value.start);
            forall t :: t in r.value <==>
              t in base && StartEndTZ(ymd, t, zone).Some?
              && forall b :: b in existing ==>
                   !Overlaps(StartEndTZ(ymd, t, zone).value.start,
                             StartEndTZ(ymd, t, zone).value.start + slotMinutes * 60000, b))
  {
    DayBoundsReadable(ymd, zone);
    var r := AvailableHoursForCourt(ymd, open, close, slotMinutes, today, hour, zone, fetch);
    var base := AvailableHours(ymd, open, close, slotMinutes, today, hour);
    if r.Some? {
      var existing := fetch(StartEndTZ(ymd, DayFirst, zone).value.start,
                            StartEndTZ(ymd, DayLast, zone).value.start);
      FilterIsSubsequence(base, t => SlotFree(ymd, t, slotMinutes, zone, existing));
    }
  }

  /** Every slot of the day's grid has an interval once the date reads. */
  lemma BaseSlotsReadable(ymd: string, open: string, close: string, slotMinutes: int,
                          today: string, hour: int, zone: Zone)
    requires slotMinutes > 0 && DateOf(ymd).Some?
    ensures forall t :: t in AvailableHours(ymd, open, close, slotMinutes, today, hour) ==>
              StartEndTZ(ymd, t, zone).Some?
  {
    var base := AvailableHours(ymd, open, close, slotMinutes, today, hour);
    var g := BaseGrid(open, close, slotMinutes);
    var all := Map(g, SlotLabel);
    forall t | t in base
      ensures StartEndTZ(ymd, t, zone).Some?
    {
      assert t in all;
      var i :| 0 <= i < |all| && all[i] == t;
      SlotLabelReadable(ymd, g[i], zone);
    }
  }

  /** With nothing booked, the grid comes back unchanged. */
  lemma AvailableHoursForCourtNoBookings(ymd: string, open: string, close: string,
                                         slotMinutes: int, today: string, hour: int, zone: Zone,
                                         fetch: (int, int) -> seq<Interval>)
    requires slotMinutes > 0
    requires DateOf(ymd).Some?
    requires forall a, b :: fetch(a, b) == []
    ensures AvailableHoursForCourt(ymd, open, close, slotMinutes, today, hour, zone, fetch)
         == Some(AvailableHours(ymd, open, close, slotMinutes, today, hour))
  {
    DayBoundsReadable(ymd, zone);
    var base := AvailableHours(ymd, open, close, slotMinutes, today, hour);
    BaseSlotsReadable(ymd, open, close, slotMinutes, today, hour, zone);
    forall i | 0 <= i < |base|
      ensures SlotFree(ymd, base[i], slotMinutes, zone, [])
    {
      assert base[i] in base;
    }
    FilterAll(base, t => SlotFree(ymd, t, slotMinutes, zone, []));
  }

  /** In a zone of constant offset, the slot at minute `t` of a real date starts `t` minutes
      after the day's midnight there, the midnight instant being the date's minute number less
      the offset. */
  lemma SlotStartInFixedZone(ymd: string, dt: Date, offset: int, t: nat)
    requires DateOf(ymd) == Some(dt) && ValidDate(dt.year, dt.month, dt.day) && dt.year >= 100
    requires t < 1440
    ensures var start := (MinuteOf(Wall(dt.year, dt.month, dt.day, 0, 0)) + t - offset) * 60000;
      StartEndTZ(ymd, FormatHHmm(t), FixedOffsetZone(offset))
        == Some(Interval(start, start + 3600000))
  {
    var h, mi := t / 60, t % 60;
    assert h * 60 + mi == t;
    FormattedFields(t);
    ClockStartInFixedZone(ymd, FormatHHmm(t), dt, offset, h, mi);
  }

  /** The same for any time string whose two fields read as an hour and a minute. */
  lemma ClockStartInFixedZone(ymd: string, hhmm: string, dt: Date, offset: int, h: int, mi: int)
    requires DateOf(ymd) == Some(dt) && ValidDate(dt.year, dt.month, dt.day) && dt.year >= 100
    requires 0 <= h < 24 && 0 <= mi < 60
    requires NumberField(hhmm, ':', 0) == Some(h) && NumberField(hhmm, ':', 1) == Some(mi)
    ensures var start := (MinuteOf(Wall(dt.year, dt.month, dt.day, 0, 0)) + h * 60 + mi - offset) * 60000;
      StartEndTZ(ymd, hhmm, FixedOffsetZone(offset)) == Some(Interval(start, start + 3600000))
  {
    var w := Wall(dt.year, dt.month, dt.day, h, mi);
    DesiredWallOfDate(ymd, hhmm, dt, h, mi);
    StartEndInFixedZone(ymd, hhmm, offset, w);
    IntervalFromMidnight(StartEndTZ(ymd, hhmm, FixedOffsetZone(offset)), w, offset);
  }

  lemma IntervalFromMidnight(r: Option<Interval>, w: Wall, offset: int)
    requires 1 <= w.month <= 12
    requires var start := (MinuteOf(w) - offset) * 60000; r == Some(Interval(start, start + 3600000))
    ensures var start := (MinuteOf(Wall(w.year, w.month, w.day, 0, 0)) + w.hour * 60 + w.minute - offset) * 60000;
      r == Some(Interval(start, start + 3600000))
  {
    MinuteOfMidnight(w);
  }

  lemma DesiredWallOfDate(ymd: string, hhmm: string, dt: Date, h: int, mi: int)
    requires DateOf(ymd) == Some(dt)
    requires NumberField(hhmm, ':', 0) == Some(h) && NumberField(hhmm, ':', 1) == Some(mi)
    ensures DesiredWall(ymd, hhmm) == Some(Wall(dt.year, dt.month, dt.day, h, mi))
  {
  }

  lemma MinuteOfMidnight(w: Wall)
    requires 1 <= w.month <= 12
    ensures MinuteOf(w) == MinuteOf(Wall(w.year, w.month, w.day, 0, 0)) + w.hour * 60 + w.minute
  {
  }

  // ---------------------------------------------------------------- as written

  /** `SlotFree` over the instants the source computes: `makeStartEndTZ` as written. */
  predicate SlotFreeAsWritten(ymd: string, t: string, slotMinutes: int, zone: Zone,
                              existing: seq<Interval>) {
    match StartEndAsWritten(ymd, t, zone)
    case None => false
    case Some(iv) =>
      !exists b :: b in existing && Overlaps(iv.start, iv.start + slotMinutes * 60000, b)
  }

  /** `getAvailableHoursForCourt` exactly as the source computes it: the day's range and every
      slot's instant come from `makeStartEndTZ` as written. It fails on the same dates and keeps
      only slots of the grid. */
  function AvailableHoursForCourtAsWritten(ymd: string, open: string, close: string,
                                           slotMinutes: int, today: string, hour: int,
                                           zone: Zone, fetch: (int, int) -> seq<Interval>)
    : (r: Option<seq<string>>)
    requires slotMinutes > 0
    ensures r.Some? <==> DateOf(ymd).Some?
    ensures r.Some? ==> IsSubsequence(r.value, AvailableHours(ymd, open, close, slotMinutes, today, hour))
  {
    DayBoundsReadable(ymd, zone);
    var base := AvailableHours(ymd, open, close, slotMinutes, today, hour);
    var dayStart, dayEnd := StartEndAsWritten(ymd, DayFirst, zone), StartEndAsWritten(ymd, DayLast, zone);
    if dayStart.None? || dayEnd.None? then None
    else
      var existing := fetch(dayStart.value.start, dayEnd.value.start);
      FilterIsSubsequence(base, t => SlotFreeAsWritten(ymd, t, slotMinutes, zone, existing));
      Some(Filter(base, t => SlotFreeAsWritten(ymd, t, slotMinutes, zone, existing)))
  }

  /** Where the source's instants for the day's bounds and for every slot of the grid are the
      corrected ones, the source's availability is the model's. */
  lemma AsWrittenAvailabilityAgrees(ymd: string, open: string, close: string, slotMinutes: int,
                                    today: string, hour: int, zone: Zone,
                                    fetch: (int, int) -> seq<Interval>)
    requires slotMinutes > 0
    requires StartEndAsWritten(ymd, DayFirst, zone) == StartEndTZ(ymd, DayFirst, zone)
    requires StartEndAsWritten(ymd, DayLast, zone) == StartEndTZ(ymd, DayLast, zone)
    requires forall t :: t in AvailableHours(ymd, open, close, slotMinutes, today, hour) ==>
               StartEndAsWritten(ymd, t, zone) == StartEndTZ(ymd, t, zone)
    ensures AvailableHoursForCourtAsWritten(ymd, open, close, slotMinutes, today, hour, zone, fetch)
         == AvailableHoursForCourt(ymd, open, close, slotMinutes, today, hour, zone, fetch)
  {
    var base := AvailableHours(ymd, open, close, slotMinutes, today, hour);
    var dayStart := StartEndTZ(ymd, DayFirst, zone);
    var dayEnd := StartEndTZ(ymd, DayLast, zone);
    if dayStart.Some? && dayEnd.Some? {
      var existing := fetch(dayStart.value.start, dayEnd.value.start);
      forall i | 0 <= i < |base|
        ensures SlotFreeAsWritten(ymd, base[i], slotMinutes, zone, existing)
             == SlotFree(ymd, base[i], slotMinutes, zone, existing)
      {
        assert base[i] in base;
      }
      FilterCongruent(base, t => SlotFreeAsWritten(ymd, t, slotMinutes, zone, existing),
                      t => SlotFree(ymd, t, slotMinutes, zone, existing));
    }
  }

  /** On the 1st of a month that follows a month shorter than 31 days, in a zone west of UTC,
      the source's 23:59 starts before its 00:00, so a range query (which finds nothing in an
      inverted range) returns no booking and every slot of the grid is offered, booked or
      not. */
  lemma AsWrittenFirstOfMonthOffersAll(ymd: string, y: int, m: int, offset: int,
                                       open: string, close: string, slotMinutes: int,
                                       today: string, hour: int, fetch: (int, int) -> seq<Interval>)
    requires slotMinutes > 0
    requires DateOf(ymd) == Some(Date(y, m, 1)) && y >= 100 && 2 <= m <= 12
    requires -1440 < offset < 0 && DaysInMonth(y, m - 1) < 31
    requires forall a, b :: a > b ==> fetch(a, b) == []
    ensures AvailableHoursForCourtAsWritten(ymd, open, close, slotMinutes, today, hour,
                                            FixedOffsetZone(offset), fetch)
         == Some(AvailableHours(ymd, open, close, slotMinutes, today, hour))
  {
    var zone := FixedOffsetZone(offset);
    AsWrittenBoundsInverted(ymd, y, m, offset);
    var base := AvailableHours(ymd, open, close, slotMinutes, today, hour);
    BaseSlotsReadable(ymd, open, close, slotMinutes, today, hour, zone);
    forall i | 0 <= i < |base|
      ensures SlotFreeAsWritten(ymd, base[i], slotMinutes, zone, [])
    {
      assert base[i] in base;
    }
    FilterAll(base, t => SlotFreeAsWritten(ymd, t, slotMinutes, zone, []));
  }

  /** The source's day range on such a date is inverted. */
  lemma AsWrittenBoundsInverted(ymd: string, y: int, m: int, offset: int)
    requires DateOf(ymd) == Some(Date(y, m, 1)) && y >= 100 && 2 <= m <= 12
    requires -1440 < offset < 0 && DaysInMonth(y, m - 1) < 31
    ensures var zone := FixedOffsetZone(offset);
      var first, last := StartEndAsWritten(ymd, DayFirst, zone), StartEndAsWritten(ymd, DayLast, zone);
      first.Some? && last.Some? && last.value.start < first.value.start
  {
    var zone := FixedOffsetZone(offset);
    DayBoundWalls(ymd, Date(y, m, 1));
    StartEndAsWrittenOf(ymd, DayFirst, zone, Wall(y, m, 1, 0, 0));
    StartEndAsWrittenOf(ymd, DayLast, zone, Wall(y, m, 1, 23, 59));
    AsWrittenDayRangeInverted(y, m, offset);
  }

  /** The day's bounds name the date's first and last minute. */
  lemma DayBoundWalls(ymd: string, dt: Date)
    requires DateOf(ymd) == Some(dt)
    ensures DesiredWall(ymd, DayFirst) == Some(Wall(dt.year, dt.month, dt.day, 0, 0))
    ensures DesiredWall(ymd, DayLast) == Some(Wall(dt.year, dt.month, dt.day, 23, 59))
  {
    DayBoundsFormatted();
    DesiredWallFormatted(ymd, 0);
    LastMinuteFields();
    DesiredWallFormatted(ymd, 1439);
  }

  lemma LastMinuteFields()
    ensures 1439 / 60 == 23 && 1439 % 60 == 59
  {
  }
}
