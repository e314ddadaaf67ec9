/** The text formats of the booking flow's time helpers (`time.utils`): the `HH:mm`,
    `YYYY-MM-DD` and `DD-MM-YYYY` validators and the conversions between the two date layouts. */
module TimeFormats {
  import opened Wrappers
  import opened Text
  import opened Calendar

  /** `Number(s.split(sep)[i])`; `None` stands for `NaN`, a missing field included. */
  function NumberField(s: string, sep: char, i: nat): (r: Option<int>)
    ensures r.Some? ==> r.value >= 0
  {
    match Field(s, sep, i)
    case None => None
    case Some(f) => JsNumber(f)
  }

  // ---------------------------------------------------------------- HH:mm

  /** `/^\d{2}:\d{2}$/`. */
  predicate ShapeHHmm(s: string) {
    |s| == 5 && AllDigits(s[..2]) && s[2] == ':' && AllDigits(s[3..])
  }

  /** `isValidHHmm`: the shape, then the two numbers in range. */
  predicate IsValidHHmm(s: string) {
    ShapeHHmm(s) &&
    var hh := NumberField(s, ':', 0);
    var mm := NumberField(s, ':', 1);
    hh.Some? && mm.Some? && 0 <= hh.value <= 23 && 0 <= mm.value <= 59
  }

  /** Minutes after midnight that a well-shaped `HH:mm` writes. */
  function ClockMinutes(s: string): nat
    requires ShapeHHmm(s)
  {
    DigitsValue(s[..2]) * 60 + DigitsValue(s[3..])
  }

  /** A minute of the day written `HH:mm`, both parts padded to two digits. */
  function FormatHHmm(t: nat): string {
    PadStart2(NatToString(t / 60)) + ":" + PadStart2(NatToString(t % 60))
  }

  /** On a well-shaped `HH:mm`, splitting at `:` and reading numbers yields its two parts. */
  lemma ClockFields(s: string)
    requires ShapeHHmm(s)
    ensures NumberField(s, ':', 0) == Some(DigitsValue(s[..2]))
    ensures NumberField(s, ':', 1) == Some(DigitsValue(s[3..]))
  {
    assert s == s[..2] + [':'] + s[3..];
    DigitsExclude(s[..2], ':');
    DigitsExclude(s[3..], ':');
    SplitTwo(s[..2], s[3..], ':');
    JsNumberOfDigits(s[..2]);
    JsNumberOfDigits(s[3..]);
  }

  /** `isValidHHmm` holds exactly of two digits, a colon and two digits, hour at most 23 and
      minute at most 59. */
  lemma ValidHHmmIff(s: string)
    ensures IsValidHHmm(s) <==>
      ShapeHHmm(s) && DigitsValue(s[..2]) <= 23 && DigitsValue(s[3..]) <= 59
  {
    if ShapeHHmm(s) {
      ClockFields(s);
    }
  }

  /** Every minute of the day formats to a valid `HH:mm` that reads back as that minute. */
  lemma FormatHHmmValid(t: nat)
    requires t < 1440
    ensures IsValidHHmm(FormatHHmm(t))
    ensures ClockMinutes(FormatHHmm(t)) == t
  {
    TwoDigitRendering(t / 60);
    TwoDigitRendering(t % 60);
    var s := FormatHHmm(t);
    assert s[..2] == PadStart2(NatToString(t / 60));
    assert s[3..] == PadStart2(NatToString(t % 60));
    ClockFields(s);
  }

  /** Every valid `HH:mm` is the formatting of the minute it reads as. */
  lemma ValidHHmmIsFormatted(s: string)
    requires IsValidHHmm(s)
    ensures ClockMinutes(s) < 1440
    ensures FormatHHmm(ClockMinutes(s)) == s
  {
    ClockFields(s);
    var t := ClockMinutes(s);
    assert t / 60 == DigitsValue(s[..2]) && t % 60 == DigitsValue(s[3..]);
    TwoDigitRoundTrip(s[..2]);
    TwoDigitRoundTrip(s[3..]);
    assert s == s[..2] + ":" + s[3..];
  }

  /** The valid `HH:mm` strings are exactly the 1440 formatted minutes of a day. */
  lemma ValidHHmmAreFormattedMinutes(s: string)
    ensures IsValidHHmm(s) <==> exists t: nat :: t < 1440 && s == FormatHHmm(t)
  {
    if IsValidHHmm(s) {
      ValidHHmmIsFormatted(s);
    }
    if t: nat :| t < 1440 && s == FormatHHmm(t) {
      FormatHHmmValid(t);
    }
  }

  // ---------------------------------------------------------------- dates

  /** `/^\d{4}-\d{2}-\d{2}$/`. */
  predicate ShapeYMD(s: string) {
    |s| == 10 && AllDigits(s[..4]) && s[4] == '-' && AllDigits(s[5..7]) && s[7] == '-'
    && AllDigits(s[8..])
  }

  /** `/^\d{2}-\d{2}-\d{4}$/`, the pattern both `isValidDMY` and `reDateDMY` test. */
  predicate ShapeDMY(s: string) {
    |s| == 10 && AllDigits(s[..2]) && s[2] == '-' && AllDigits(s[3..5]) && s[5] == '-'
    && AllDigits(s[6..])
  }

  lemma YmdFields(s: string)
    requires ShapeYMD(s)
    ensures Split(s, '-') == [s[..4], s[5..7], s[8..]]
    ensures NumberField(s, '-', 0) == Some(DigitsValue(s[..4]))
    ensures NumberField(s, '-', 1) == Some(DigitsValue(s[5..7]))
    ensures NumberField(s, '-', 2) == Some(DigitsValue(s[8..]))
  {
    assert Split(s, '-') == [s[..4], s[5..7], s[8..]] by {
      assert s == s[..4] + ['-'] + s[5..7] + ['-'] + s[8..];
      DigitsExclude(s[..4], '-');
      DigitsExclude(s[5..7], '-');
      DigitsExclude(s[8..], '-');
      SplitThree(s[..4], s[5..7], s[8..], '-');
    }
    assert Field(s, '-', 0) == Some(s[..4]);
    assert Field(s, '-', 1) == Some(s[5..7]);
    assert Field(s, '-', 2) == Some(s[8..]);
    JsNumberOfDigits(s[..4]);
    JsNumberOfDigits(s[5..7]);
    JsNumberOfDigits(s[8..]);
  }

  lemma DmyFields(s: string)
    requires ShapeDMY(s)
    ensures Split(s, '-') == [s[..2], s[3..5], s[6..]]
    ensures NumberField(s, '-', 0) == Some(DigitsValue(s[..2]))
    ensures NumberField(s, '-', 1) == Some(DigitsValue(s[3..5]))
    ensures NumberField(s, '-', 2) == Some(DigitsValue(s[6..]))
  {
    assert Split(s, '-') == [s[..2], s[3..5], s[6..]] by {
      assert s == s[..2] + ['-'] + s[3..5] + ['-'] + s[6..];
      DigitsExclude(s[..2], '-');
      DigitsExclude(s[3..5], '-');
      DigitsExclude(s[6..], '-');
      SplitThree(s[..2], s[3..5], s[6..], '-');
    }
    assert Field(s, '-', 0) == Some(s[..2]);
    assert Field(s, '-', 1) == Some(s[3..5]);
    assert Field(s, '-', 2) == Some(s[6..]);
    JsNumberOfDigits(s[..2]);
    JsNumberOfDigits(s[3..5]);
    JsNumberOfDigits(s[6..]);
  }

  /** The calendar date the `getUTC*` accessors report for an instant. */
  function UtcDate(ms: int): Date {
    CivilFromDays(ms / 86400000)
  }

  /** The check both validators make: `Date.UTC(y, m - 1, d)` reads back as `y`, `m`, `d`. */
  predicate SurvivesDateUtc(y: int, m: int, d: int) {
    UtcDate(DateUtcMs(y, m - 1, d, 0, 0)) == Date(y, m, d)
  }

  /** `isValidYMD`. */
  predicate IsValidYMD(s: string) {
    ShapeYMD(s) &&
    var y, m, d := NumberField(s, '-', 0), NumberField(s, '-', 1), NumberField(s, '-', 2);
    y.Some? && m.Some? && d.Some? && SurvivesDateUtc(y.value, m.value, d.value)
  }

  /** `isValidDMY`. */
  predicate IsValidDMY(s: string) {
    ShapeDMY(s) &&
    var d, m, y := NumberField(s, '-', 0), NumberField(s, '-', 1), NumberField(s, '-', 2);
    y.Some? && m.Some? && d.Some? && SurvivesDateUtc(y.value, m.value, d.value)
  }

  /** The `Date.UTC` round trip accepts exactly the real dates of years from 100 on: earlier
      years are moved to 1900-1999 and never read back. */
  lemma SurvivesDateUtcIff(y: nat, m: nat, d: nat)
    ensures SurvivesDateUtc(y, m, d) <==> y >= 100 && ValidDate(y, m, d)
  {
    var yr := if y <= 99 then 1900 + y else y;
    var n := MakeDay(yr, m - 1, d);
    assert DateUtcMs(y, m - 1, d, 0, 0) == n * 86400000;
    assert UtcDate(n * 86400000) == CivilFromDays(n);
    if y <= 99 {
      var y2 := yr + (m - 1) / 12;
      YearStartGrows(1898, y2);
      YearAtLeast(n, 1898);
    } else if 1 <= m <= 12 {
      MakeDayInYear(y, m, d);
      if ValidDate(y, m, d) {
        CivilRoundTrip(y, m, d);
      }
    }
  }

  /** `isValidYMD` accepts a well-shaped string iff its year is at least 100 and its month and
      day name a real Gregorian date. */
  lemma ValidYMDIff(s: string)
    ensures IsValidYMD(s) <==>
      ShapeYMD(s) && DigitsValue(s[..4]) >= 100
      && ValidDate(DigitsValue(s[..4]), DigitsValue(s[5..7]), DigitsValue(s[8..]))
  {
    if ShapeYMD(s) {
      YmdFields(s);
      SurvivesDateUtcIff(DigitsValue(s[..4]), DigitsValue(s[5..7]), DigitsValue(s[8..]));
    }
  }

  /** `isValidDMY` accepts a well-shaped string iff its year is at least 100 and its month and
      day name a real Gregorian date. */
  lemma ValidDMYIff(s: string)
    ensures IsValidDMY(s) <==>
      ShapeDMY(s) && DigitsValue(s[6..]) >= 100
      && ValidDate(DigitsValue(s[6..]), DigitsValue(s[3..5]), DigitsValue(s[..2]))
  {
    if ShapeDMY(s) {
      DmyFields(s);
      SurvivesDateUtcIff(DigitsValue(s[6..]), DigitsValue(s[3..5]), DigitsValue(s[..2]));
    }
  }

  /** `ymdToDMY`: the three `-` fields in reverse order, a missing one written `undefined`. */
  function YmdToDMY(ymd: string): string {
    FieldText(Field(ymd, '-', 2)) + "-" + FieldText(Field(ymd, '-', 1)) + "-"
    + FieldText(Field(ymd, '-', 0))
  }

  /** `dmyToYMD`: day and month padded to two digits; `None` when there is no month field, where
      `padStart` on `undefined` throws. */
  function DmyToYMD(dmy: string): Option<string> {
    var parts := Split(dmy, '-');
    if |parts| < 2 then None
    else Some(FieldText(Field(dmy, '-', 2)) + "-" + PadStart2(parts[1]) + "-" + PadStart2(parts[0]))
  }

  /** On three fields free of `-`, `ymdToDMY` writes them back in reverse order. */
  lemma YmdToDMYFields(a: string, b: string, c: string)
    requires '-' !in a && '-' !in b && '-' !in c
    ensures YmdToDMY(a + "-" + b + "-" + c) == c + "-" + b + "-" + a
  {
    var t := a + "-" + b + "-" + c;
    assert t == a + ['-'] + b + ['-'] + c;
    SplitThree(a, b, c, '-');
    assert Field(t, '-', 0) == Some(a);
    assert Field(t, '-', 1) == Some(b);
    assert Field(t, '-', 2) == Some(c);
  }

  /** On a `DD-MM-YYYY`, `dmyToYMD` reverses the fields; the padding has nothing to add. */
  lemma DmyToYMDOfShape(s: string)
    requires ShapeDMY(s)
    ensures DmyToYMD(s) == Some(s[6..] + "-" + s[3..5] + "-" + s[..2])
  {
    DmyFields(s);
    assert Field(s, '-', 2) == Some(s[6..]);
  }

  /** `ymdToDMY(dmyToYMD(s)) == s` for every `DD-MM-YYYY`. */
  lemma DmyToYMDRoundTrip(s: string)
    requires ShapeDMY(s)
    ensures DmyToYMD(s).Some?
    ensures YmdToDMY(DmyToYMD(s).value) == s
  {
    DmyToYMDOfShape(s);
    DigitsExclude(s[..2], '-');
    DigitsExclude(s[3..5], '-');
    DigitsExclude(s[6..], '-');
    YmdToDMYFields(s[6..], s[3..5], s[..2]);
    Rejoin(s, 2, 5);
  }

  /** `dmyToYMD(ymdToDMY(s)) == s` for every `YYYY-MM-DD`, through the `DD-MM-YYYY` it
      writes. */
  lemma YmdToDMYRoundTrip(s: string)
    requires ShapeYMD(s)
    ensures ShapeDMY(YmdToDMY(s))
    ensures DmyToYMD(YmdToDMY(s)) == Some(s)
  {
    DigitsExclude(s[..4], '-');
    DigitsExclude(s[5..7], '-');
    DigitsExclude(s[8..], '-');
    Rejoin(s, 4, 7);
    YmdToDMYFields(s[..4], s[5..7], s[8..]);
    var t := s[8..] + "-" + s[5..7] + "-" + s[..4];
    assert t[..2] == s[8..] && t[3..5] == s[5..7] && t[6..] == s[..4];
    DmyToYMDOfShape(t);
  }
}
