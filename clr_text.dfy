/**
 * The .NET string primitives the C# core calls, over ordinal (code-unit)
 * comparison: `IndexOf`, `StartsWith`, `EndsWith`, invariant lower-casing of
 * ASCII letters, `Int32.TryParse`/`Int64.TryParse` with the default integer
 * number style, integer `ToString` and the exact "yyyy-MM-dd" date parse.
 */
module ClrText {
  import opened Wrappers
  import Clr

  /** `pat` occurs in `s` at position `i`. */
  predicate OccursAt(s: string, pat: string, i: int)
  {
    0 <= i && i + |pat| <= |s| && s[i..i + |pat|] == pat
  }

  /** `s.IndexOf(pat, from)`: the first occurrence at or after `from`, or -1. */
  function IndexOf(s: string, pat: string, from: nat): (r: int)
    requires from <= |s|
    ensures r == -1 || (from <= r && OccursAt(s, pat, r))
    ensures r == -1 ==> forall i :: from <= i <= |s| ==> !OccursAt(s, pat, i)
    ensures r >= 0 ==> forall i :: from <= i < r ==> !OccursAt(s, pat, i)
    decreases |s| - from
  {
    if from + |pat| > |s| then -1
    else if s[from..from + |pat|] == pat then from
    else if from == |s| then -1
    else IndexOf(s, pat, from + 1)
  }

  predicate StartsWith(s: string, prefix: string)
  {
    |prefix| <= |s| && s[..|prefix|] == prefix
  }

  predicate EndsWith(s: string, suffix: string)
  {
    |suffix| <= |s| && s[|s| - |suffix|..] == suffix
  }

  function ToLowerChar(c: char): (r: char)
    ensures 'A' <= c <= 'Z' ==> 'a' <= r <= 'z'
    ensures !('A' <= c <= 'Z') ==> r == c
  {
    if 'A' <= c <= 'Z' then (c as int + 32) as char else c
  }

  /** `ToLowerInvariant` on ASCII letters; every other character is kept. */
  function ToLower(s: string): (r: string)
    ensures |r| == |s|
    ensures forall i :: 0 <= i < |s| ==> r[i] == ToLowerChar(s[i])
  {
    if s == [] then [] else [ToLowerChar(s[0])] + ToLower(s[1..])
  }

  predicate EqualsIgnoreCase(a: string, b: string)
  {
    ToLower(a) == ToLower(b)
  }

  predicate StartsWithIgnoreCase(s: string, prefix: string)
  {
    |prefix| <= |s| && EqualsIgnoreCase(s[..|prefix|], prefix)
  }

  predicate EndsWithIgnoreCase(s: string, suffix: string)
  {
    |suffix| <= |s| && EqualsIgnoreCase(s[|s| - |suffix|..], suffix)
  }

  predicate IsAsciiDigit(c: char)
  {
    '0' <= c <= '9'
  }

  /** The white space `NumberStyles.AllowLeadingWhite`/`AllowTrailingWhite` skip: U+0009..U+000D and U+0020. */
  predicate IsNumberWhite(c: char)
  {
    '\t' <= c <= '\r' || c == ' '
  }

  /** The value of a run of decimal digits. */
  function DigitsValue(ds: string): (v: nat)
    requires forall i :: 0 <= i < |ds| ==> IsAsciiDigit(ds[i])
  {
    if ds == [] then 0
    else
      assert IsAsciiDigit(ds[|ds| - 1]);
      DigitsValue(ds[..|ds| - 1]) * 10 + (ds[|ds| - 1] as int - '0' as int)
  }

  function TrimNumberWhite(s: string): (r: string)
    ensures |r| <= |s|
    ensures |r| > 0 ==> !IsNumberWhite(r[0]) && !IsNumberWhite(r[|r| - 1])
    decreases |s|
  {
    if s == [] then s
    else if IsNumberWhite(s[0]) then TrimNumberWhite(s[1..])
    else if IsNumberWhite(s[|s| - 1]) then TrimNumberWhite(s[..|s| - 1])
    else s
  }

  /**
   * The value `NumberStyles.Integer` reads from `s`: optional white space, an
   * optional sign, at least one decimal digit, optional white space.
   */
  function ParseInteger(s: string): (r: Option<int>)
    ensures r.Some? ==> |TrimNumberWhite(s)| > 0
  {
    var t := TrimNumberWhite(s);
    var negative := |t| > 0 && t[0] == '-';
    var ds := if |t| > 0 && (t[0] == '-' || t[0] == '+') then t[1..] else t;
    if |ds| == 0 || exists i :: 0 <= i < |ds| && !IsAsciiDigit(ds[i]) then None
    else
      var magnitude: int := DigitsValue(ds);
      Some(if negative then -magnitude else magnitude)
  }

  /** `Int32.TryParse(s, out v)`: an integer of `s` that fits in int32. */
  function TryParseInt32(s: string): (r: Option<Clr.Int32>)
    ensures r.Some? ==> ParseInteger(s) == Some(r.value)
    ensures r.None? ==> ParseInteger(s).None? || !(Clr.Int32Min <= ParseInteger(s).value <= Clr.Int32Max)
  {
    match ParseInteger(s)
    case Some(v) => if Clr.Int32Min <= v <= Clr.Int32Max then Some(v) else None
    case None => None
  }

  /** `Int64.TryParse(s, out v)`: an integer of `s` that fits in int64. */
  function TryParseInt64(s: string): (r: Option<Clr.Int64>)
    ensures r.Some? ==> ParseInteger(s) == Some(r.value)
    ensures r.None? ==> ParseInteger(s).None? || !(Clr.Int64Min <= ParseInteger(s).value <= Clr.Int64Max)
  {
    match ParseInteger(s)
    case Some(v) => if Clr.Int64Min <= v <= Clr.Int64Max then Some(v) else None
    case None => None
  }

  /** The decimal digits of `n`, without leading zeros. */
  function NatToString(n: nat): (r: string)
    ensures |r| > 0 && forall i :: 0 <= i < |r| ==> IsAsciiDigit(r[i])
    ensures |r| > 1 ==> r[0] != '0'
  {
    var digit := ['0' + (n % 10) as char];
    if n < 10 then digit else NatToString(n / 10) + digit
  }

  /** `n.ToString()` in the invariant culture: a minus sign and the digits of the magnitude. */
  function IntToString(n: int): (r: string)
    ensures |r| > 0
  {
    if n < 0 then "-" + NatToString(-n) else NatToString(n)
  }

  /** The digits `NatToString` writes read back as `n`. */
  lemma {:induction false} NatToStringValue(n: nat)
    ensures DigitsValue(NatToString(n)) == n
  {
    var r := NatToString(n);
    if n >= 10 {
      NatToStringValue(n / 10);
      assert r[..|r| - 1] == NatToString(n / 10);
    }
  }

  /** Parsing what `IntToString` writes gives back the integer. */
  lemma IntToStringParses(n: int)
    ensures ParseInteger(IntToString(n)) == Some(n)
  {
    var r := IntToString(n);
    var ds := NatToString(if n < 0 then -n else n);
    NatToStringValue(if n < 0 then -n else n);
    assert !IsNumberWhite(r[0]) && !IsNumberWhite(r[|r| - 1]);
    assert TrimNumberWhite(r) == r;
    if n < 0 {
      assert r[1..] == ds;
    } else {
      assert r[0] != '-' && r[0] != '+';
    }
  }

  predicate IsLeapYear(y: int)
  {
    y % 4 == 0 && (y % 100 != 0 || y % 400 == 0)
  }

  /** The days in month `m` (1 to 12) of the proleptic Gregorian year `y`. */
  function DaysInMonth(y: int, m: int): (r: int)
    requires 1 <= m <= 12
    ensures 28 <= r <= 31
  {
    if m == 2 then (if IsLeapYear(y) then 29 else 28)
    else if m == 4 || m == 6 || m == 9 || m == 11 then 30
    else 31
  }

  datatype Date = Date(year: int, month: int, day: int)

  /** A calendar day `DateTime` can hold: years 1 to 9999. */
  predicate IsValidDate(d: Date)
  {
    1 <= d.year <= 9999 && 1 <= d.month <= 12 && 1 <= d.day <= DaysInMonth(d.year, d.month)
  }

  /** The days from 0001-01-01 to the first day of year `y`. */
  function DaysBeforeYear(y: int): (r: int)
    ensures 1 <= y ==> 0 <= r
  {
    var p := y - 1;
    p * 365 + p / 4 - p / 100 + p / 400
  }

  /** The days of year `y` before month `m`. */
  function DaysBeforeMonth(y: int, m: int): (r: int)
    requires 1 <= m <= 12
    ensures 0 <= r
  {
    if m == 1 then 0 else DaysBeforeMonth(y, m - 1) + DaysInMonth(y, m - 1)
  }

  /** The days from 0001-01-01 to `d`: `DateTime.Ticks` of that day divided by the ticks of a day. */
  function DayNumber(d: Date): (r: int)
    requires IsValidDate(d)
    ensures 0 <= r
  {
    DaysBeforeYear(d.year) + DaysBeforeMonth(d.year, d.month) + d.day - 1
  }

  /** `DateTime.DayOfWeek`: 0 for Sunday to 6 for Saturday; 0001-01-01 was a Monday. */
  function DayOfWeek(d: Date): (r: int)
    requires IsValidDate(d)
    ensures 0 <= r < 7
  {
    (DayNumber(d) + 1) % 7
  }

  /** The value of the digits of `s` from `i` to `j`, or -1 when one of them is not a digit. */
  function DigitsAt(s: string, i: nat, j: nat): (v: int)
    requires i <= j <= |s|
    ensures v >= -1
  {
    if forall k :: i <= k < j ==> IsAsciiDigit(s[k]) then DigitsValue(s[i..j]) else -1
  }

  /**
   * `DateTime.TryParseExact(s, "yyyy-MM-dd", InvariantCulture, None)`: exactly
   * four, two and two digits around two hyphens, naming a valid day; no white
   * space is allowed.
   */
  function TryParseIsoDate(s: string): (r: Option<Date>)
    ensures r.Some? ==> IsValidDate(r.value) && |s| == 10 && s[4] == '-' && s[7] == '-'
  {
    if |s| != 10 || s[4] != '-' || s[7] != '-' then None
    else
      var d := Date(DigitsAt(s, 0, 4), DigitsAt(s, 5, 7), DigitsAt(s, 8, 10));
      if IsValidDate(d) then Some(d) else None
  }

  /** Digits alone parse to their value. */
  lemma TryParseInt32OfDigits(ds: string)
    requires 0 < |ds|
    requires forall i :: 0 <= i < |ds| ==> IsAsciiDigit(ds[i])
    requires DigitsValue(ds) <= Clr.Int32Max
    ensures TryParseInt32(ds) == Some(DigitsValue(ds))
  {
    assert TrimNumberWhite(ds) == ds by {
      assert !IsNumberWhite(ds[0]) && !IsNumberWhite(ds[|ds| - 1]);
    }
  }

  /** Any occurrence at or after `from` bounds what `IndexOf` finds. */
  lemma IndexOfFindsFirst(s: string, pat: string, from: nat, i: int)
    requires from <= |s|
    requires from <= i && OccursAt(s, pat, i)
    ensures 0 <= IndexOf(s, pat, from) <= i
  {
  }
}
