/** The slot grid of the booking flow's time helpers (`time.utils`): `generateBaseSlots` and the
    cut-off `getAvailableHours` applies for today. The clock of the host the grid is built on
    is a plain count of minutes; today's date and the current hour are parameters. */
module TimeSlots {
  import opened Wrappers
  import opened Text
  import opened Seqs
  import opened Calendar
  import opened TimeFormats

  /** `open.split(':').map(Number)` taken as a local time of day on 2000-01-01 (minutes); `None`
      when a part is `NaN`, which makes the date invalid. */
  function ParseClock(s: string): (r: Option<int>)
    ensures r.Some? ==> r.value >= 0
  {
    var h := NumberField(s, ':', 0);
    var m := NumberField(s, ':', 1);
    if h.Some? && m.Some? then Some(h.value * 60 + m.value) else None
  }

  /** The minutes `open + k * slot`, k = 0, 1, ..., up to and including `close`. */
  function SlotGrid(open: int, close: int, slot: int): seq<int>
    requires slot > 0
    decreases if open > close then 0 else close - open + 1
  {
    if open > close then [] else [open] + SlotGrid(open + slot, close, slot)
  }

  /** The grid is `open + k * slot` for `k < n`, where `n` is the first count that passes
      `close`: each entry is on the grid and within the close, and the next one would not be. */
  lemma {:induction false} SlotGridSpec(open: int, close: int, slot: int)
    requires slot > 0
    ensures forall k :: 0 <= k < |SlotGrid(open, close, slot)| ==>
      SlotGrid(open, close, slot)[k] == open + k * slot && SlotGrid(open, close, slot)[k] <= close
    ensures open + |SlotGrid(open, close, slot)| * slot > close
    decreases if open > close then 0 else close - open + 1
  {
    if open <= close {
      var g := SlotGrid(open, close, slot);
      var rest := SlotGrid(open + slot, close, slot);
      SlotGridSpec(open + slot, close, slot);
      forall k | 0 <= k < |g|
        ensures g[k] == open + k * slot
      {
        if k > 0 {
          assert g[k] == rest[k - 1];
          assert (k - 1) * slot + slot == k * slot;
        }
      }
      assert open + slot + |rest| * slot == open + |g| * slot;
    }
  }

  lemma MulMonotone(i: int, j: int, slot: int)
    requires i < j && slot > 0
    ensures i * slot < j * slot
  {
    assert j * slot == i * slot + (j - i) * slot;
  }

  /** The grid is strictly increasing. */
  lemma SlotGridIncreasing(open: int, close: int, slot: int)
    requires slot > 0
    ensures forall i, j :: 0 <= i < j < |SlotGrid(open, close, slot)| ==>
      SlotGrid(open, close, slot)[i] < SlotGrid(open, close, slot)[j]
  {
    SlotGridSpec(open, close, slot);
    var g := SlotGrid(open, close, slot);
    forall i, j | 0 <= i < j < |g|
      ensures g[i] < g[j]
    {
      MulMonotone(i, j, slot);
    }
  }

  /** What `generateBaseSlots(open, close, slotMinutes)` steps through, as minutes. */
  function BaseGrid(open: string, close: string, slotMinutes: int): seq<int>
    requires slotMinutes > 0
  {
    var o, c := ParseClock(open), ParseClock(close);
    if o.Some? && c.Some? then SlotGrid(o.value, c.value, slotMinutes) else []
  }

  lemma BaseGridParsed(open: string, close: string, slot: int)
    requires slot > 0 && ParseClock(open).Some? && ParseClock(close).Some?
    ensures BaseGrid(open, close, slot) == SlotGrid(ParseClock(open).value, ParseClock(close).value, slot)
  {
  }

  /** `String(x.getHours()).padStart(2, '0') + ':' + ...` of a local minute count; the clock
      wraps past midnight. */
  function SlotLabel(t: int): string {
    FormatHHmm(t % 1440)
  }

  lemma SlotLabelInDay(t: int)
    requires 0 <= t < 1440
    ensures SlotLabel(t) == FormatHHmm(t)
  {
    assert t % 1440 == t;
  }

  /** When the loop's early exit fires (same hour as the close, later minute), the next start
      is already past the close, so the exit never drops a slot the loop test would keep. */
  lemma EarlyExitPastClose(d: int, ch: int, cm: int)
    requires d >= 0 && (d % 1440) / 60 == ch && d % 60 > cm
    ensures d > ch * 60 + cm
  {
    assert d == 1440 * (d / 1440) + d % 1440;
    assert d % 1440 == 60 * ((d % 1440) / 60) + (d % 1440) % 60;
    assert (d % 1440) % 60 == d % 60;
  }

  /** The loop of `generateBaseSlots` from the minute `d0` up to the close `ch:cm`, early exit
      included: it yields the labels of the grid. */
  method StepSlots(d0: int, end: int, ch: int, cm: int, slot: int) returns (out: seq<string>)
    requires d0 >= 0 && slot > 0 && end == ch * 60 + cm
    ensures out == Map(SlotGrid(d0, end, slot), SlotLabel)
  {
    var d := d0;
    out := [];
    ghost var done: seq<int> := [];
    while d <= end
      invariant d >= d0
      invariant SlotGrid(d0, end, slot) == done + SlotGrid(d, end, slot)
      invariant out == Map(done, SlotLabel)
      decreases end - d
    {
      GridStep(d0, d, end, slot, done);
      MapAppend(done, d, SlotLabel);
      out := out + [SlotLabel(d)];
      done := done + [d];
      d := d + slot;
      if (d % 1440) / 60 == ch && d % 60 > cm {
        EarlyExitPastClose(d, ch, cm);
        break;
      }
    }
    assert SlotGrid(d, end, slot) == [];
    assert SlotGrid(d0, end, slot) == done + [];
  }

  /** One turn of the loop moves the grid's next entry onto the part already done. */
  lemma GridStep(d0: int, d: int, end: int, slot: int, done: seq<int>)
    requires slot > 0 && d <= end
    requires SlotGrid(d0, end, slot) == done + SlotGrid(d, end, slot)
    ensures SlotGrid(d0, end, slot) == (done + [d]) + SlotGrid(d + slot, end, slot)
  {
    assert SlotGrid(d, end, slot) == [d] + SlotGrid(d + slot, end, slot);
    assert done + ([d] + SlotGrid(d + slot, end, slot)) == (done + [d]) + SlotGrid(d + slot, end, slot);
  }

  /** `generateBaseSlots`: the labels of the grid from `open` to `close`, none when either does
      not parse. */
  method GenerateBaseSlots(open: string, close: string, slotMinutes: int) returns (out: seq<string>)
    requires slotMinutes > 0
    ensures out == Map(BaseGrid(open, close, slotMinutes), SlotLabel)
  {
    var o, c := ParseClock(open), ParseClock(close);
    if o.None? || c.None? {
      return [];
    }
    BaseGridParsed(open, close, slotMinutes);
    var ch, cm := NumberField(close, ':', 0).value, NumberField(close, ':', 1).value;
    out := StepSlots(o.value, c.value, ch, cm, slotMinutes);
  }

  /** A well-shaped `HH:mm` parses to the minutes it writes. */
  lemma ParseClockShape(s: string)
    requires ShapeHHmm(s)
    ensures ParseClock(s) == Some(ClockMinutes(s))
  {
    var h, m := NumberField(s, ':', 0), NumberField(s, ':', 1);
    assert h == Some(DigitsValue(s[..2])) && m == Some(DigitsValue(s[3..])) by {
      ClockFields(s);
    }
  }

  /** Every minute of the day, formatted, parses back to itself. */
  lemma ParseFormatted(t: nat)
    requires t < 1440
    ensures ParseClock(FormatHHmm(t)) == Some(t)
  {
    FormatHHmmValid(t);
    ParseClockShape(FormatHHmm(t));
  }

  lemma BusinessOpenParses()
    ensures FormatHHmm(420) == "07:00"
    ensures ParseClock("07:00") == Some(420)
  {
    assert FormatHHmm(420) == "07:00" by {
      assert NatToString(7) == "7";
      assert NatToString(0) == "0";
    }
    ParseFormatted(420);
  }

  lemma BusinessCloseParses()
    ensures FormatHHmm(1380) == "23:00"
    ensures ParseClock("23:00") == Some(1380)
  {
    assert FormatHHmm(1380) == "23:00" by {
      assert NatToString(23) == "23";
      assert NatToString(0) == "0";
    }
    ParseFormatted(1380);
  }

  lemma BusinessMinutes()
    ensures |SlotGrid(420, 1380, 60)| == 17
    ensures forall k :: 0 <= k < 17 ==> SlotGrid(420, 1380, 60)[k] == 420 + 60 * k
  {
    var g := SlotGrid(420, 1380, 60);
    SlotGridSpec(420, 1380, 60);
    assert g[|g| - 1] <= 1380;
  }

  /** The business hours of the reservation flow, 07:00 to 23:00 every 60 minutes, give 17
      slots from `07:00` to `23:00`, both ends included. */
  lemma BusinessGrid()
    ensures |BaseGrid("07:00", "23:00", 60)| == 17
    ensures forall k :: 0 <= k < 17 ==> BaseGrid("07:00", "23:00", 60)[k] == 420 + 60 * k
    ensures SlotLabel(BaseGrid("07:00", "23:00", 60)[0]) == "07:00"
    ensures SlotLabel(BaseGrid("07:00", "23:00", 60)[16]) == "23:00"
  {
    BusinessOpenParses();
    BusinessCloseParses();
    BaseGridParsed("07:00", "23:00", 60);
    BusinessMinutes();
    var g := BaseGrid("07:00", "23:00", 60);
    assert g[0] == 420 && g[16] == 1380;
    SlotLabelInDay(420);
    SlotLabelInDay(1380);
  }

  // ---------------------------------------------------------------- today's cut-off

  /** `getLocalHourRoundedUp` for the zone's reading of the current instant. */
  function RoundedUpHour(now: Wall): int {
    now.hour + (if now.minute >= 30 then 1 else 0)
  }

  /** `Number(t.slice(0, 2))`. */
  function SlotHour(t: string): Option<int> {
    JsNumber(JsSlice(t, 0, 2))
  }

  predicate NotBefore(hour: int, t: string) {
    SlotHour(t).Some? && SlotHour(t).value >= hour
  }

  /** `getAvailableHours(ymd, { open, close, slotMinutes })`, with `today` the zone's current
      date and `hour` its current hour rounded up. */
  function AvailableHours(ymd: string, open: string, close: string, slotMinutes: int,
                          today: string, hour: int): (r: seq<string>)
    requires slotMinutes > 0
    ensures var grid := Map(BaseGrid(open, close, slotMinutes), SlotLabel);
      IsSubsequence(r, grid)
      && (forall t :: t in r <==> t in grid && (ymd == today ==> NotBefore(hour, t)))
  {
    var base := Map(BaseGrid(open, close, slotMinutes), SlotLabel);
    FilterIsSubsequence(base, t => NotBefore(hour, t));
    IsSubsequenceRefl(base);
    if ymd != today then base else Filter(base, t => NotBefore(hour, t))
  }

  /** The hour `Number(label.slice(0, 2))` reads from a slot label is the slot's hour. */
  lemma SlotLabelHour(t: int)
    ensures SlotHour(SlotLabel(t)) == Some((t % 1440) / 60)
  {
    var m := t % 1440;
    var s := FormatHHmm(m);
    TwoDigitRendering(m / 60);
    TwoDigitRendering(m % 60);
    assert s[..2] == PadStart2(NatToString(m / 60));
    assert JsSlice(s, 0, 2) == s[..2];
    JsNumberOfDigits(s[..2]);
  }

  /** For another day the grid comes back whole; for today exactly the grid slots whose hour
      is at least the rounded-up current hour remain, in grid order. */
  lemma AvailableHoursSpec(ymd: string, open: string, close: string, slotMinutes: int,
                           today: string, hour: int)
    requires slotMinutes > 0
    ensures var r := AvailableHours(ymd, open, close, slotMinutes, today, hour);
      var g := BaseGrid(open, close, slotMinutes);
      (ymd != today ==> r == Map(g, SlotLabel))
      && (ymd == today ==>
            IsSubsequence(r, Map(g, SlotLabel))
            && forall i :: 0 <= i < |g| ==> (SlotLabel(g[i]) in r <==> (g[i] % 1440) / 60 >= hour))
  {
    var g := BaseGrid(open, close, slotMinutes);
    var base := Map(g, SlotLabel);
    if ymd == today {
      FilterIsSubsequence(base, t => NotBefore(hour, t));
      forall i | 0 <= i < |g|
        ensures NotBefore(hour, SlotLabel(g[i])) <==> (g[i] % 1440) / 60 >= hour
      {
        SlotLabelHour(g[i]);
      }
      forall i | 0 <= i < |g|
        ensures SlotLabel(g[i]) in base
      {
        assert base[i] == SlotLabel(g[i]);
      }
    }
  }
}
