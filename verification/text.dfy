/** The string primitives the source leans on: digit strings and `Number`/`String` on them,
    `split` on one character, `trim`, ASCII `toLowerCase`, `startsWith`, `includes`,
    `padStart(2, '0')`. A `char` is a Unicode scalar value,
    while JavaScript counts UTF-16 code units; the two agree on the Basic Multilingual Plane. */
module Text {
  import opened Wrappers

  // ---------------------------------------------------------------- digits

  predicate IsDigit(c: char) {
    '0' <= c <= '9'
  }

  predicate AllDigits(s: string) {
    forall i :: 0 <= i < |s| ==> IsDigit(s[i])
  }

  function DigitValue(c: char): nat
    requires IsDigit(c)
  {
    (c as int) - ('0' as int)
  }

  function DigitChar(n: nat): (c: char)
    requires n < 10
    ensures IsDigit(c) && DigitValue(c) == n
  {
    ('0' as int + n) as char
  }

  /** The value of a decimal digit string, most significant digit first. */
  function DigitsValue(s: string): nat
    requires AllDigits(s)
  {
    if |s| == 0 then 0 else DigitsValue(s[..|s| - 1]) * 10 + DigitValue(s[|s| - 1])
  }

  /** `String(n)` for a non-negative integer: decimal, no leading zero. */
  function NatToString(n: nat): (s: string)
    ensures |s| >= 1 && AllDigits(s)
    ensures |s| > 1 ==> s[0] != '0'
    ensures n < 10 <==> |s| == 1
    decreases n
  {
    if n < 10 then [DigitChar(n)] else NatToString(n / 10) + [DigitChar(n % 10)]
  }

  /** `String(i)` for any integer. */
  function IntToString(i: int): string {
    if i < 0 then "-" + NatToString(-i) else NatToString(i)
  }

  lemma {:induction false} NatToStringValue(n: nat)
    ensures DigitsValue(NatToString(n)) == n
    decreases n
  {
    if n >= 10 {
      var s := NatToString(n);
      assert s[..|s| - 1] == NatToString(n / 10);
      NatToStringValue(n / 10);
    }
  }

  /** A digit string without a superfluous leading zero is `String(Number(s))`. */
  lemma {:induction false} DigitsRoundTrip(s: string)
    requires |s| >= 1 && AllDigits(s)
    requires |s| > 1 ==> s[0] != '0'
    ensures NatToString(DigitsValue(s)) == s
    decreases |s|
  {
    if |s| == 1 {
      assert DigitsValue(s) == DigitsValue(s[..0]) * 10 + DigitValue(s[0]);
      assert s[..0] == [];
      assert [DigitChar(DigitValue(s[0]))] == s;
    } else {
      var init := s[..|s| - 1];
      assert init[0] == s[0];
      DigitsRoundTrip(init);
      LeadingDigitPositive(init);
      var v := DigitsValue(s);
      assert v / 10 == DigitsValue(init);
      assert v % 10 == DigitValue(s[|s| - 1]);
      assert init + [s[|s| - 1]] == s;
    }
  }

  lemma {:induction false} LeadingDigitPositive(s: string)
    requires |s| >= 1 && AllDigits(s) && s[0] != '0'
    ensures DigitsValue(s) >= 1
    decreases |s|
  {
    if |s| > 1 {
      var init := s[..|s| - 1];
      assert init[0] == s[0];
      LeadingDigitPositive(init);
    }
  }

  // ---------------------------------------------------------------- padStart(2, '0')

  /** `s.padStart(2, '0')`. */
  function PadStart2(s: string): string {
    if |s| >= 2 then s else if |s| == 1 then "0" + s else "00"
  }

  /** Two-digit rendering of a number below 100, as `String(n).padStart(2, '0')` gives it. */
  lemma TwoDigitRendering(n: nat)
    requires n < 100
    ensures |PadStart2(NatToString(n))| == 2
    ensures AllDigits(PadStart2(NatToString(n)))
    ensures DigitsValue(PadStart2(NatToString(n))) == n
  {
    var t := PadStart2(NatToString(n));
    if n < 10 {
      assert t == ['0', DigitChar(n)];
      assert t[..1] == ['0'];
    } else {
      assert NatToString(n / 10) == [DigitChar(n / 10)];
      assert t == [DigitChar(n / 10), DigitChar(n % 10)];
      assert t[..1] == [DigitChar(n / 10)];
      assert t[..1][..0] == [];
      assert DigitsValue(t[..1]) == n / 10;
    }
  }

  /** Reading two digits and writing them back with `padStart(2, '0')` restores them. */
  lemma TwoDigitRoundTrip(s: string)
    requires |s| == 2 && AllDigits(s)
    ensures PadStart2(NatToString(DigitsValue(s))) == s
  {
    assert s[..1] == [s[0]];
    assert s[..1][..0] == [];
    assert DigitsValue(s[..1]) == DigitValue(s[0]);
    var v := DigitsValue(s);
    assert v == DigitValue(s[0]) * 10 + DigitValue(s[1]);
    if s[0] == '0' {
      assert NatToString(v) == [s[1]];
    } else {
      assert v >= 10;
      assert NatToString(v / 10) == [s[0]];
      assert NatToString(v) == [s[0], s[1]];
    }
  }

  // ---------------------------------------------------------------- split on one character

  /** `s.split(c)`: the fields between occurrences of `c`; never empty. */
  function Split(s: string, c: char): (r: seq<string>)
    ensures |r| >= 1
    decreases |s|
  {
    if |s| == 0 then [""]
    else if s[0] == c then [""] + Split(s[1..], c)
    else
      var rest := Split(s[1..], c);
      [[s[0]] + rest[0]] + rest[1..]
  }

  /** `parts.join(c)`, the inverse of `Split`. */
  function Join(parts: seq<string>, c: char): string
    requires |parts| >= 1
  {
    if |parts| == 1 then parts[0] else parts[0] + [c] + Join(parts[1..], c)
  }

  lemma {:induction false} JoinSplit(s: string, c: char)
    ensures Join(Split(s, c), c) == s
    decreases |s|
  {
    if |s| > 0 {
      JoinSplit(s[1..], c);
      var rest := Split(s[1..], c);
      if s[0] == c {
        assert Split(s, c)[1..] == rest;
      } else if |rest| == 1 {
        assert s == [s[0]] + s[1..];
      } else {
        var r := Split(s, c);
        assert r[1..] == rest[1..];
        assert s == [s[0]] + s[1..];
      }
    }
  }

  lemma {:induction false} SplitFieldsHaveNoSeparator(s: string, c: char)
    ensures forall i :: 0 <= i < |Split(s, c)| ==> c !in Split(s, c)[i]
    decreases |s|
  {
    if |s| > 0 {
      SplitFieldsHaveNoSeparator(s[1..], c);
    }
  }

  /** Splitting `a + [c] + rest` where `a` holds no `c` peels `a` off as the first field. */
  lemma {:induction false} SplitCons(a: string, c: char, rest: string)
    requires c !in a
    ensures Split(a + [c] + rest, c) == [a] + Split(rest, c)
    decreases |a|
  {
    if |a| > 0 {
      assert (a + [c] + rest)[1..] == a[1..] + [c] + rest;
      SplitCons(a[1..], c, rest);
      assert a == [a[0]] + a[1..];
    } else {
      assert (a + [c] + rest)[1..] == rest;
    }
  }

  lemma {:induction false} SplitNoSeparator(a: string, c: char)
    requires c !in a
    ensures Split(a, c) == [a]
    decreases |a|
  {
    if |a| > 0 {
      SplitNoSeparator(a[1..], c);
      assert a == [a[0]] + a[1..];
    }
  }

  lemma SplitTwo(a: string, b: string, c: char)
    requires c !in a && c !in b
    ensures Split(a + [c] + b, c) == [a, b]
  {
    SplitCons(a, c, b);
    SplitNoSeparator(b, c);
  }

  lemma SplitThree(a: string, b: string, d: string, c: char)
    requires c !in a && c !in b && c !in d
    ensures Split(a + [c] + b + [c] + d, c) == [a, b, d]
  {
    assert a + [c] + b + [c] + d == a + [c] + (b + [c] + d);
    SplitCons(a, c, b + [c] + d);
    SplitTwo(b, d, c);
  }

  /** A string is its two pieces around positions `i` and `j` put back together. */
  lemma Rejoin<T>(s: seq<T>, i: nat, j: nat)
    requires i < j < |s|
    ensures s == s[..i] + [s[i]] + s[i + 1..j] + [s[j]] + s[j + 1..]
  {
  }

  /** A digit string holds no character that is not a digit, separators in particular. */
  lemma DigitsExclude(s: string, c: char)
    requires AllDigits(s) && !IsDigit(c)
    ensures c !in s
  {
    forall i | 0 <= i < |s|
      ensures s[i] != c
    {
      assert IsDigit(s[i]);
    }
  }

  /** The field `s.split(c)[i]`, `None` when the index is past the end (`undefined`). */
  function Field(s: string, c: char, i: nat): Option<string> {
    var parts := Split(s, c);
    if i < |parts| then Some(parts[i]) else None
  }

  /** A field rendered into a template literal: `undefined` prints as the word. */
  function FieldText(f: Option<string>): string {
    f.GetOr("undefined")
  }

  // ---------------------------------------------------------------- trim, lower, search

  /** The characters `String.prototype.trim` and the regex class `\s` treat as white space. */
  predicate IsWhitespace(c: char) {
    var n := c as int;
    (9 <= n <= 13) || n == 0x20 || n == 0xA0 || n == 0x1680 || (0x2000 <= n <= 0x200A)
    || n == 0x2028 || n == 0x2029 || n == 0x202F || n == 0x205F || n == 0x3000 || n == 0xFEFF
  }

  function TrimStart(s: string): (r: string)
    ensures |r| <= |s| && r == s[|s| - |r|..]
    ensures |r| > 0 ==> !IsWhitespace(r[0])
    decreases |s|
  {
    if |s| > 0 && IsWhitespace(s[0]) then TrimStart(s[1..]) else s
  }

  function TrimEnd(s: string): (r: string)
    ensures |r| <= |s| && r == s[..|r|]
    ensures |r| > 0 ==> !IsWhitespace(r[|r| - 1])
    decreases |s|
  {
    if |s| > 0 && IsWhitespace(s[|s| - 1]) then TrimEnd(s[..|s| - 1]) else s
  }

  /** `s.trim()`. */
  function Trim(s: string): (r: string)
    ensures |r| > 0 ==> !IsWhitespace(r[0]) && !IsWhitespace(r[|r| - 1])
  {
    TrimEnd(TrimStart(s))
  }

  /** Trimming twice trims nothing more. */
  lemma TrimIdempotent(s: string)
    ensures Trim(Trim(s)) == Trim(s)
  {
    var r := Trim(s);
    assert TrimStart(r) == r;
    assert TrimEnd(r) == r;
  }

  function LowerChar(c: char): char {
    if 'A' <= c <= 'Z' then (c as int + 32) as char else c
  }

  /** `s.toLowerCase()` on the ASCII letters. */
  function ToLower(s: string): (r: string)
    ensures |r| == |s|
    ensures forall i :: 0 <= i < |s| ==> r[i] == LowerChar(s[i])
  {
    seq(|s|, i requires 0 <= i < |s| => LowerChar(s[i]))
  }

  predicate StartsWith(s: string, prefix: string) {
    |prefix| <= |s| && s[..|prefix|] == prefix
  }

  /** `s.includes(t)`. */
  predicate Contains(s: string, t: string)
    decreases |s|
  {
    StartsWith(s, t) || (|s| > 0 && Contains(s[1..], t))
  }

  lemma {:induction false} ContainsAt(s: string, t: string, i: nat)
    requires i + |t| <= |s| && s[i..i + |t|] == t
    ensures Contains(s, t)
    decreases i
  {
    if i > 0 {
      assert s[1..][i - 1..i - 1 + |t|] == s[i..i + |t|];
      ContainsAt(s[1..], t, i - 1);
    }
  }

  /** A string lacking one of the characters of `t` does not contain `t`. */
  lemma {:induction false} NotContainsMissingChar(s: string, t: string, c: char)
    requires c in t && c !in s
    ensures !Contains(s, t)
    decreases |s|
  {
    var j :| 0 <= j < |t| && t[j] == c;
    if |t| <= |s| {
      assert s[j] in s;
      assert s[..|t|][j] != t[j];
    }
    if |s| > 0 {
      NotContainsMissingChar(s[1..], t, c);
    }
  }

  // ---------------------------------------------------------------- Number(s)

  /** `Number(s)` for the strings the model reads: white space around an unsigned digit string,
      or white space alone (which is 0). `None` stands for `NaN`. */
  function JsNumber(s: string): (r: Option<int>)
    ensures r.Some? ==> r.value >= 0
  {
    var t := Trim(s);
    if t == "" then Some(0)
    else if AllDigits(t) then Some(DigitsValue(t))
    else None
  }

  /** `Number(s)` where an optional sign may precede the digits `JsNumber` reads. */
  function SignedNumber(s: string): (r: Option<int>)
    ensures JsNumber(s).Some? ==> r == JsNumber(s)
  {
    SignedTrimmed(Trim(s))
  }

  /** `Number` of a string with no white space around it. */
  function SignedTrimmed(t: string): Option<int> {
    if |t| >= 2 && t[0] == '-' && AllDigits(t[1..]) then Some(0 - DigitsValue(t[1..]) as int)
    else if |t| >= 2 && t[0] == '+' && AllDigits(t[1..]) then Some(DigitsValue(t[1..]))
    else JsNumber(t)
  }

  lemma JsNumberOfDigits(s: string)
    requires |s| >= 1 && AllDigits(s)
    ensures JsNumber(s) == Some(DigitsValue(s))
  {
    assert !IsWhitespace(s[0]);
    assert TrimStart(s) == s;
    assert !IsWhitespace(s[|s| - 1]);
    assert TrimEnd(s) == s;
  }

  /** A sign in front of digits is read: `Number('+12')` is 12. */
  lemma PlusDigits(t: string)
    requires |t| >= 2 && t[0] == '+' && AllDigits(t[1..])
    ensures SignedNumber(t) == Some(DigitsValue(t[1..]))
  {
    assert IsDigit(t[1..][|t| - 2]);
    TrimNoop(t);
    PlusTrimmed(t, t[1..]);
  }

  /** `Number('-12')` is -12. */
  lemma MinusDigits(t: string)
    requires |t| >= 2 && t[0] == '-' && AllDigits(t[1..])
    ensures SignedNumber(t) == Some(0 - DigitsValue(t[1..]))
  {
    assert IsDigit(t[1..][|t| - 2]);
    TrimNoop(t);
    MinusTrimmed(t, t[1..]);
  }

  /** A string with no white space at either end is its own trim. */
  lemma TrimNoop(t: string)
    requires |t| >= 1 && !IsWhitespace(t[0]) && !IsWhitespace(t[|t| - 1])
    ensures Trim(t) == t
  {
    assert TrimStart(t) == t;
    assert TrimEnd(t) == t;
  }

  lemma PlusTrimmed(t: string, d: string)
    requires |d| >= 1 && AllDigits(d)
    requires |t| >= 2 && t[0] == '+' && t[1..] == d
    ensures SignedTrimmed(t) == Some(DigitsValue(d))
  {
  }

  lemma MinusTrimmed(t: string, d: string)
    requires |d| >= 1 && AllDigits(d)
    requires |t| >= 2 && t[0] == '-' && t[1..] == d
    ensures SignedTrimmed(t) == Some(0 - DigitsValue(d))
  {
  }

}
