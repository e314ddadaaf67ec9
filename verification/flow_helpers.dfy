/** The helpers of the WhatsApp flows (`flows/helpers`): the button-text clamp, the phone-number
    normaliser, the `DD-MM-YYYY` / `YYYY-MM-DD` conversions the reservation flow uses, and the
    grouping of bookings by date. */
module FlowHelpers {
  import opened Wrappers
  import opened Text
  import opened Seqs
  import opened TimeFormats

  // ---------------------------------------------------------------- ensureMax

  /** The default `max` of `ensureMax`. */
  const DefaultMax := 20

  /** `ensureMax(s, max)`: `s` when it fits, else `s.slice(0, max)`. */
  function EnsureMax(s: string, max: int): (r: string)
    ensures |r| <= |s| && r == s[..|r|]
    ensures |s| <= max ==> r == s
    ensures max >= 0 ==> |r| == if |s| <= max then |s| else max
  {
    if |s| <= max then s else JsSlice(s, 0, max)
  }

  // ---------------------------------------------------------------- normalizeE164

  const WhatsappPrefix := "whatsapp:"

  /** `raw.replace(/^whatsapp:/i, '')`. Case-insensitive matching of a non-unicode regular
      expression never maps a non-ASCII character onto an ASCII one, so ASCII case folding is
      exact for this prefix. */
  function StripWhatsapp(raw: string): (r: string)
    ensures r == raw || (|raw| >= 9 && r == raw[9..])
  {
    if |raw| >= 9 && ToLower(raw[..9]) == WhatsappPrefix then raw[9..] else raw
  }

  /** The characters `/[^0-9+]/g` keeps. */
  predicate IsPhoneChar(c: char) {
    IsDigit(c) || c == '+'
  }

  /** `normalizeE164(raw)`: drop a leading `whatsapp:`, trim, keep digits and `+`, and put a
      `+` in front unless one is already there. */
  function NormalizeE164(raw: string): (r: string)
    ensures |r| >= 1 && r[0] == '+'
    ensures forall i :: 0 <= i < |r| ==> IsPhoneChar(r[i])
  {
    var digits := Filter(Trim(StripWhatsapp(raw)), IsPhoneChar);
    if |digits| > 0 && digits[0] == '+' then digits else "+" + digits
  }

  /** A normalised number is left as it is. */
  lemma NormalizeE164Idempotent(raw: string)
    ensures NormalizeE164(NormalizeE164(raw)) == NormalizeE164(raw)
  {
    var r := NormalizeE164(raw);
    assert StripWhatsapp(r) == r by {
      if |r| >= 9 {
        assert ToLower(r[..9])[0] == LowerChar(r[0]);
        assert WhatsappPrefix[0] == 'w';
      }
    }
    assert Trim(r) == r by {
      PhoneCharNotWhitespace(r[0]);
      PhoneCharNotWhitespace(r[|r| - 1]);
      assert TrimStart(r) == r;
      assert TrimEnd(r) == r;
    }
    FilterAll(r, IsPhoneChar);
  }

  /** A leading `whatsapp:` in any letter case is dropped: the number comes out as if it had
      never been there (unless what follows starts with the prefix again). */
  lemma NormalizeE164StripsPrefix(p: string, rest: string)
    requires |p| == 9 && ToLower(p) == WhatsappPrefix
    requires StripWhatsapp(rest) == rest
    ensures NormalizeE164(p + rest) == NormalizeE164(rest)
  {
    assert (p + rest)[..9] == p;
    assert (p + rest)[9..] == rest;
  }

  /** The digits of the normalised number are the digits of the input after the prefix, in
      order: trimming and the character filter drop no digit. */
  lemma NormalizeE164KeepsDigits(raw: string)
    ensures Filter(NormalizeE164(raw), IsDigit) == Filter(StripWhatsapp(raw), IsDigit)
  {
    var s := StripWhatsapp(raw);
    var digits := Filter(Trim(s), IsPhoneChar);
    TrimKeepsDigits(s);
    FilterFilter(Trim(s), IsPhoneChar, IsDigit);
    if !(|digits| > 0 && digits[0] == '+') {
      FilterConcat("+", digits, IsDigit);
      assert Filter("+", IsDigit) == [];
    }
  }

  lemma {:induction false} TrimStartDropsWhitespace(s: string)
    ensures forall i :: 0 <= i < |s| - |TrimStart(s)| ==> IsWhitespace(s[i])
    decreases |s|
  {
    if |s| > 0 && IsWhitespace(s[0]) {
      TrimStartDropsWhitespace(s[1..]);
      forall i | 1 <= i < |s| - |TrimStart(s)|
        ensures IsWhitespace(s[i])
      {
        assert s[1..][i - 1] == s[i];
      }
    }
  }

  lemma {:induction false} TrimEndDropsWhitespace(s: string)
    ensures forall i :: |TrimEnd(s)| <= i < |s| ==> IsWhitespace(s[i])
    decreases |s|
  {
    if |s| > 0 && IsWhitespace(s[|s| - 1]) {
      TrimEndDropsWhitespace(s[..|s| - 1]);
    }
  }

  /** White space is neither a digit nor `+`. */
  lemma PhoneCharNotWhitespace(c: char)
    ensures IsWhitespace(c) ==> !IsPhoneChar(c)
  {
  }

  /** White space is not a digit. */
  lemma WhitespaceNotDigit(s: string)
    requires forall i :: 0 <= i < |s| ==> IsWhitespace(s[i])
    ensures Filter(s, IsDigit) == []
  {
    forall i | 0 <= i < |s|
      ensures !IsDigit(s[i])
    {
      assert IsWhitespace(s[i]);
    }
    FilterEmpty(s, IsDigit);
  }

  lemma TrimStartKeepsDigits(s: string)
    ensures Filter(TrimStart(s), IsDigit) == Filter(s, IsDigit)
  {
    var a := TrimStart(s);
    var n := |s| - |a|;
    TrimStartDropsWhitespace(s);
    assert s == s[..n] + a;
    FilterConcat(s[..n], a, IsDigit);
    WhitespaceNotDigit(s[..n]);
  }

  lemma TrimEndKeepsDigits(s: string)
    ensures Filter(TrimEnd(s), IsDigit) == Filter(s, IsDigit)
  {
    var b := TrimEnd(s);
    var tail := s[|b|..];
    TrimEndDropsWhitespace(s);
    assert s == b + tail;
    FilterConcat(b, tail, IsDigit);
    forall i | 0 <= i < |tail|
      ensures IsWhitespace(tail[i])
    {
      assert tail[i] == s[|b| + i];
    }
    WhitespaceNotDigit(tail);
  }

  /** `trim` only removes white space, never a digit. */
  lemma TrimKeepsDigits(s: string)
    ensures Filter(Trim(s), IsDigit) == Filter(s, IsDigit)
  {
    TrimStartKeepsDigits(s);
    TrimEndKeepsDigits(TrimStart(s));
  }

  // ---------------------------------------------------------------- dmyToYmd / ymdToDmy

  /** `String(Number(field))`: a number read from a field, `NaN` written as the word. */
  function NumberText(n: Option<int>): string {
    match n
    case None => "NaN"
    case Some(v) => IntToString(v)
  }

  /** `String(x)` of an `x` that destructuring `dmy.split('-').map(Number)` binds: `undefined`
      past the last field, otherwise the field read by `Number`. */
  function FieldNumberText(f: Option<string>): string {
    match f
    case None => "undefined"
    case Some(v) => NumberText(SignedNumber(v))
  }

  /** `dmyToYmd`: each field read as a number and written back, day and month padded to two
      digits. */
  function DmyToYmd(dmy: string): string {
    FieldNumberText(Field(dmy, '-', 2)) + "-" + PadStart2(FieldNumberText(Field(dmy, '-', 1)))
    + "-" + PadStart2(FieldNumberText(Field(dmy, '-', 0)))
  }

  /** `ymdToDmy`: the same code as `ymdToDMY` of the time helpers. */
  function YmdToDmy(ymd: string): string {
    YmdToDMY(ymd)
  }

  /** `ymdToDmy` copies the three `-` fields verbatim in reverse order. */
  lemma YmdToDmyReverses(a: string, b: string, c: string)
    requires '-' !in a && '-' !in b && '-' !in c
    ensures YmdToDmy(a + "-" + b + "-" + c) == c + "-" + b + "-" + a
  {
    YmdToDMYFields(a, b, c);
  }

  /** On a `DD-MM-YYYY`, `dmyToYmd` writes the year as its number and keeps day and month. */
  lemma DmyToYmdOfShape(s: string)
    requires ShapeDMY(s)
    ensures DmyToYmd(s) == NatToString(DigitsValue(s[6..])) + "-" + s[3..5] + "-" + s[..2]
  {
    var dd, mm, yy := s[..2], s[3..5], s[6..];
    DmyFieldsSigned(s);
    assert PadStart2(NumberText(Some(DigitsValue(mm)))) == mm by {
      TwoDigitRoundTrip(mm);
    }
    assert PadStart2(NumberText(Some(DigitsValue(dd)))) == dd by {
      TwoDigitRoundTrip(dd);
    }
  }

  /** The three fields of a `DD-MM-YYYY` as `dmyToYmd` writes them. */
  lemma DmyFieldsSigned(s: string)
    requires ShapeDMY(s)
    ensures FieldNumberText(Field(s, '-', 0)) == NatToString(DigitsValue(s[..2]))
    ensures FieldNumberText(Field(s, '-', 1)) == NatToString(DigitsValue(s[3..5]))
    ensures FieldNumberText(Field(s, '-', 2)) == NatToString(DigitsValue(s[6..]))
  {
    DmyFields(s);
    assert Field(s, '-', 0).Some? && Field(s, '-', 1).Some? && Field(s, '-', 2).Some?;
  }

  /** Two digits come back as they are once padded. */
  lemma TwoDigitField(d: string)
    requires |d| == 2 && AllDigits(d)
    ensures PadStart2(FieldNumberText(Some(d))) == d
  {
    JsNumberOfDigits(d);
    TwoDigitRoundTrip(d);
  }

  /** Fewer than three `-` fields leave the year `undefined`, and a single field the month too:
      `dmyToYmd('01-02')` is `undefined-02-01`. */
  lemma DmyToYmdMissingFields(a: string, b: string)
    requires '-' !in a && '-' !in b
    ensures DmyToYmd(a + "-" + b) == "undefined" + "-" + PadStart2(FieldNumberText(Some(b)))
                                     + "-" + PadStart2(FieldNumberText(Some(a)))
    ensures DmyToYmd(a) == "undefined" + "-" + "undefined" + "-" + PadStart2(FieldNumberText(Some(a)))
    ensures |a| == 2 && AllDigits(a) && |b| == 2 && AllDigits(b) ==>
      DmyToYmd(a + "-" + b) == "undefined" + "-" + b + "-" + a
  {
    if |a| == 2 && AllDigits(a) && |b| == 2 && AllDigits(b) {
      TwoDigitField(a);
      TwoDigitField(b);
    }
    var t := a + "-" + b;
    assert t == a + ['-'] + b;
    SplitTwo(a, b, '-');
    assert Field(t, '-', 0) == Some(a) && Field(t, '-', 1) == Some(b) && Field(t, '-', 2) == None;
    SplitNoSeparator(a, '-');
    assert Field(a, '-', 0) == Some(a) && Field(a, '-', 1) == None && Field(a, '-', 2) == None;
    assert PadStart2("undefined") == "undefined";
  }

  lemma DmyToYmdOfThree(t: string, a: string, b: string, c: string)
    requires '-' !in a && '-' !in b && '-' !in c
    requires t == a + "-" + b + "-" + c
    ensures DmyToYmd(t) == FieldNumberText(Some(c)) + "-"
      + PadStart2(FieldNumberText(Some(b))) + "-" + PadStart2(FieldNumberText(Some(a)))
  {
    assert t == a + ['-'] + b + ['-'] + c;
    SplitThree(a, b, c, '-');
  }

  /** A `+` before the day changes nothing, since `Number` reads it: for every well-shaped date,
      `dmyToYmd('+' + s)` is `dmyToYmd(s)`, so `dmyToYmd('+01-02-2025')` is `2025-02-01`. */
  lemma DmyToYmdSignedDay(s: string)
    requires ShapeDMY(s)
    ensures DmyToYmd("+" + s) == DmyToYmd(s)
  {
    var dd, mm, yy := s[..2], s[3..5], s[6..];
    DigitsExclude(dd, '-');
    DigitsExclude(mm, '-');
    DigitsExclude(yy, '-');
    DmyPieces(s);
    SignedFirstField(dd, mm, yy);
  }

  lemma SignedFirstField(a: string, b: string, c: string)
    requires |a| >= 1 && AllDigits(a) && '-' !in a && '-' !in b && '-' !in c
    ensures DmyToYmd(("+" + a) + "-" + b + "-" + c) == DmyToYmd(a + "-" + b + "-" + c)
  {
    var pa := "+" + a;
    assert '-' !in pa && pa[0] == '+' && pa[1..] == a;
    DmyToYmdOfThree(a + "-" + b + "-" + c, a, b, c);
    DmyToYmdOfThree(pa + "-" + b + "-" + c, pa, b, c);
    PlusField(pa);
    assert FieldNumberText(Some(pa)) == FieldNumberText(Some(a));
  }

  lemma DmyPieces(s: string)
    requires ShapeDMY(s)
    ensures s == s[..2] + "-" + s[3..5] + "-" + s[6..]
    ensures "+" + s == ("+" + s[..2]) + "-" + s[3..5] + "-" + s[6..]
  {
  }

  lemma PlusField(t: string)
    requires |t| >= 2 && t[0] == '+' && AllDigits(t[1..])
    ensures FieldNumberText(Some(t)) == FieldNumberText(Some(t[1..]))
  {
    PlusDigits(t);
    JsNumberOfDigits(t[1..]);
  }

  /** A number below 1000 is written with at most three digits. */
  lemma NatToStringShort(n: nat)
    requires n < 1000
    ensures |NatToString(n)| <= 3
  {
    if n >= 10 {
      assert NatToString(n) == NatToString(n / 10) + [DigitChar(n % 10)];
      if n / 10 >= 10 {
        assert NatToString(n / 10) == NatToString(n / 100) + [DigitChar(n / 10 % 10)];
      }
    }
  }

  /** Four digits starting with `0` are worth less than 1000. */
  lemma LeadingZeroYear(y: string)
    requires |y| == 4 && AllDigits(y) && y[0] == '0'
    ensures DigitsValue(y) < 1000
  {
    assert y[..3][..2] == y[..2];
    assert y[..2][..1] == y[..1];
    assert y[..1][..0] == [];
    assert DigitsValue(y[..1]) == 0;
  }

  /** `ymdToDmy(dmyToYmd(s)) == s` for a `DD-MM-YYYY` exactly when the year has no leading
      zero; with one, `Number` drops it and the year comes back shorter. */
  lemma DmyToYmdRoundTripIff(s: string)
    requires ShapeDMY(s)
    ensures YmdToDmy(DmyToYmd(s)) == s <==> s[6] != '0'
  {
    DmyToYmdOfShape(s);
    DmyPieces(s);
    YearRoundTripIff(s[..2], s[3..5], s[6..]);
  }

  /** Writing the year as its number and reading the three fields back restores them exactly
      when the year has no leading zero. */
  lemma YearRoundTripIff(dd: string, mm: string, yy: string)
    requires |dd| == 2 && AllDigits(dd) && |mm| == 2 && AllDigits(mm) && |yy| == 4 && AllDigits(yy)
    ensures YmdToDmy(NatToString(DigitsValue(yy)) + "-" + mm + "-" + dd) == dd + "-" + mm + "-" + yy
            <==> yy[0] != '0'
  {
    var y := NatToString(DigitsValue(yy));
    DigitsExclude(mm, '-');
    DigitsExclude(dd, '-');
    DigitsExclude(y, '-');
    YmdToDMYFields(y, mm, dd);
    if yy[0] != '0' {
      DigitsRoundTrip(yy);
    } else {
      LeadingZeroYear(yy);
      NatToStringShort(DigitsValue(yy));
      assert |dd + "-" + mm + "-" + y| < 10;
    }
  }

  // ---------------------------------------------------------------- groupByDate

  /** `groupByDate`: the items in groups by key, each group in input order. The key of an item
      is the host-local `DD-MM-YYYY` of its start, given here as `key`. */
  function GroupBy<T>(items: seq<T>, key: T -> string): (r: map<string, seq<T>>)
    ensures forall k :: k in r ==> |r[k]| > 0
    ensures forall k, x :: k in r && x in r[k] ==> x in items && key(x) == k
    decreases |items|
  {
    if |items| == 0 then map[]
    else
      var acc := GroupBy(items[..|items| - 1], key);
      var b := items[|items| - 1];
      assert forall x :: x in items[..|items| - 1] ==> x in items;
      acc[key(b) := (if key(b) in acc then acc[key(b)] else []) + [b]]
  }

  /** The reference grouping: the items with key `k`, in input order. */
  function Group<T(!new)>(items: seq<T>, key: T -> string, k: string): seq<T> {
    Filter(items, x => key(x) == k)
  }

  /** The distinct keys in order of first appearance (the order of the record's keys). */
  function Keys<T>(items: seq<T>, key: T -> string): seq<string>
    decreases |items|
  {
    if |items| == 0 then []
    else
      var ks := Keys(items[..|items| - 1], key);
      var k := key(items[|items| - 1]);
      if k in ks then ks else ks + [k]
  }

  predicate Distinct<T(==)>(s: seq<T>) {
    forall i, j :: 0 <= i < j < |s| ==> s[i] != s[j]
  }

  /** The total size of the groups listed in `ks`. */
  function SizeSum<T>(r: map<string, seq<T>>, ks: seq<string>): int
    requires forall i :: 0 <= i < |ks| ==> ks[i] in r
    decreases |ks|
  {
    if |ks| == 0 then 0 else SizeSum(r, ks[..|ks| - 1]) + |r[ks[|ks| - 1]]|
  }

  /** A key occurs in the grouping iff some item has it, and its group is exactly the items
      with that key, in input order. */
  lemma {:induction false} GroupBySpec<T(!new)>(items: seq<T>, key: T -> string)
    ensures forall k :: k in GroupBy(items, key) <==> exists x :: x in items && key(x) == k
    ensures forall k :: k in GroupBy(items, key) ==> GroupBy(items, key)[k] == Group(items, key, k)
    decreases |items|
  {
    if |items| > 0 {
      var init := items[..|items| - 1];
      var b := items[|items| - 1];
      assert items == init + [b];
      GroupBySpec(init, key);
      var acc := GroupBy(init, key);
      var r := GroupBy(items, key);
      forall k | k in r
        ensures r[k] == Group(items, key, k)
      {
        FilterAppend(init, b, x => key(x) == k);
        if k != key(b) {
          assert k in acc;
        } else if key(b) !in acc {
          forall i | 0 <= i < |init|
            ensures key(init[i]) != k
          {
            assert init[i] in init;
          }
          FilterEmpty(init, x => key(x) == k);
        }
      }
      forall k
        ensures k in r <==> exists x :: x in items && key(x) == k
      {
        if k in acc {
          var x :| x in init && key(x) == k;
          assert x in items;
        }
        if exists x :: x in items && key(x) == k {
          var x :| x in items && key(x) == k;
          if x != b {
            assert x in init;
          }
        }
      }
    }
  }

  /** Every item lands in the group of its key and in no other. */
  lemma GroupByPartitions<T(!new)>(items: seq<T>, key: T -> string, x: T, k: string)
    requires x in items
    ensures key(x) in GroupBy(items, key) && x in GroupBy(items, key)[key(x)]
    ensures k in GroupBy(items, key) && x in GroupBy(items, key)[k] ==> key(x) == k
  {
    GroupBySpec(items, key);
  }

  /** `Keys` lists the record's keys, each once. */
  lemma {:induction false} KeysSpec<T>(items: seq<T>, key: T -> string)
    ensures Distinct(Keys(items, key))
    ensures forall k :: k in Keys(items, key) <==> k in GroupBy(items, key)
    decreases |items|
  {
    if |items| > 0 {
      KeysSpec(items[..|items| - 1], key);
    }
  }

  lemma {:induction false} SizeSumOther<T>(r: map<string, seq<T>>, ks: seq<string>, k: string, v: seq<T>)
    requires forall i :: 0 <= i < |ks| ==> ks[i] in r
    requires k !in ks
    ensures SizeSum(r[k := v], ks) == SizeSum(r, ks)
    decreases |ks|
  {
    if |ks| > 0 {
      SizeSumOther(r, ks[..|ks| - 1], k, v);
    }
  }

  lemma {:induction false} SizeSumUpdate<T>(r: map<string, seq<T>>, ks: seq<string>, k: string, v: seq<T>)
    requires forall i :: 0 <= i < |ks| ==> ks[i] in r
    requires Distinct(ks) && k in ks
    ensures SizeSum(r[k := v], ks) == SizeSum(r, ks) - |r[k]| + |v|
    decreases |ks|
  {
    var init := ks[..|ks| - 1];
    if ks[|ks| - 1] == k {
      assert k !in init;
      SizeSumOther(r, init, k, v);
    } else {
      assert k in init;
      SizeSumUpdate(r, init, k, v);
    }
  }

  /** No item is lost or counted twice: the group sizes add up to the number of items. */
  lemma {:induction false} GroupByCount<T>(items: seq<T>, key: T -> string)
    ensures forall i :: 0 <= i < |Keys(items, key)| ==> Keys(items, key)[i] in GroupBy(items, key)
    ensures SizeSum(GroupBy(items, key), Keys(items, key)) == |items|
    decreases |items|
  {
    KeysSpec(items, key);
    if |items| > 0 {
      var init := items[..|items| - 1];
      var b := items[|items| - 1];
      var acc := GroupBy(init, key);
      var ks := Keys(init, key);
      GroupByCount(init, key);
      KeysSpec(init, key);
      var v := (if key(b) in acc then acc[key(b)] else []) + [b];
      if key(b) in ks {
        SizeSumUpdate(acc, ks, key(b), v);
      } else {
        SizeSumOther(acc, ks, key(b), v);
        assert (ks + [key(b)])[..|ks|] == ks;
      }
    }
  }
}
