/** The `YYYY-MM-DD` text form of a calendar day: `getLocalDateString` /
    `toLocalDateString` (the ISO 8601 extended calendar-date layout, with the year
    printed by `String(year)`, so unpadded), and the date-only part of the ECMAScript
    date-time string format that `new Date(s + 'T00:00:00')` reads back. */
module DateText {
  import opened Wrappers
  import opened Text
  import opened Calendar

  /** A month or day number as two decimal digits. */
  function TwoDigits(n: nat): (r: string)
    requires 1 <= n <= 31
    ensures |r| == 2 && IsDigit(r[0]) && IsDigit(r[1])
    ensures DigitValue(r[0]) * 10 + DigitValue(r[1]) == n
  {
    [DigitChar(n / 10), DigitChar(n % 10)]
  }

  /** `TwoDigits` is what `String(n).padStart(2, '0')` produces. */
  lemma TwoDigitsIsPadded(n: nat)
    requires 1 <= n <= 31
    ensures TwoDigits(n) == PadStart(NatToString(n), 2, '0')
  {
    if n >= 10 {
      assert NatToString(n) == NatToString(n / 10) + [DigitChar(n % 10)];
    }
  }

  /** `${year}-${month}-${day}` with month and day padded to two digits; its layout is
      stated by FormatLayout. */
  function Format(d: CivilDate): string {
    IntToString(d.year) + "-" + TwoDigits(d.month) + "-" + TwoDigits(d.day)
  }

  /** The layout of a printed day: the year as `String` prints it, a hyphen, two month
      digits, a hyphen, two day digits; ten characters for a four-digit year; never a
      `T` or a space. */
  lemma FormatLayout(d: CivilDate)
    ensures var r := Format(d);
      && |r| == |IntToString(d.year)| + 6
      && r[..|r| - 6] == IntToString(d.year)
      && r[|r| - 6] == '-' && r[|r| - 3] == '-'
      && r[|r| - 5..|r| - 3] == TwoDigits(d.month)
      && r[|r| - 2..] == TwoDigits(d.day)
      && (1000 <= d.year <= 9999 ==> |r| == 10)
      && 'T' !in r && ' ' !in r
  {
    FourDigitYear(d.year);
    var y := IntToString(d.year);
    var r := Format(d);
    assert forall i :: 0 <= i < |y| ==> y[i] == '-' || IsDigit(y[i]);
    assert forall i :: 0 <= i < |r| ==> r[i] == '-' || IsDigit(r[i]);
  }

  lemma FourDigitYear(y: int)
    ensures 1000 <= y <= 9999 ==> |IntToString(y)| == 4
  {
    if 1000 <= y <= 9999 {
      NatToStringFourDigits(y);
    }
  }

  /** Different days never print alike. */
  lemma FormatInjective(a: CivilDate, b: CivilDate)
    requires Format(a) == Format(b)
    ensures a == b
  {
    FormatLayout(a);
    FormatLayout(b);
    var s := Format(a);
    var m, d := s[|s| - 5..|s| - 3], s[|s| - 2..];
    assert DigitValue(m[0]) * 10 + DigitValue(m[1]) == a.month == b.month;
    assert DigitValue(d[0]) * 10 + DigitValue(d[1]) == a.day == b.day;
    IntToStringInjective(a.year, b.year);
  }

  predicate DigitsIn(s: string, lo: nat, hi: nat)
    requires lo <= hi <= |s|
  {
    forall i :: lo <= i < hi ==> IsDigit(s[i])
  }

  /** The day a `YYYY-MM-DD` string names, when it has exactly that shape and names an
      existing day; `None` stands for JavaScript's invalid date (`NaN` time value). */
  function ParseIso(s: string): (r: Option<CivilDate>)
    ensures r.Some? ==> |s| == 10 && s[4] == '-' && s[7] == '-'
    ensures r.Some? ==> 0 <= r.value.year <= 9999
  {
    if |s| == 10 && DigitsIn(s, 0, 4) && s[4] == '-' && DigitsIn(s, 5, 7) && s[7] == '-'
       && DigitsIn(s, 8, 10)
    then
      var y := ParseDigits(s[..4]);
      var m := DigitValue(s[5]) * 10 + DigitValue(s[6]);
      var d := DigitValue(s[8]) * 10 + DigitValue(s[9]);
      ParseBound(s[..4]);
      if 1 <= m <= 12 && 1 <= d <= DaysInMonth(y, m) then Some(Date(y, m, d)) else None
    else None
  }

  lemma {:induction false} ParseBound(s: string)
    requires forall i :: 0 <= i < |s| ==> IsDigit(s[i])
    ensures ParseDigits(s) < Pow10(|s|)
  {
    if |s| > 0 {
      ParseBound(s[..|s| - 1]);
    }
  }

  function Pow10(n: nat): (r: nat)
    ensures r >= 1
  {
    if n == 0 then 1 else 10 * Pow10(n - 1)
  }

  /** Reading a printed four-digit-year day gives the day back. */
  lemma ParseFormat(d: CivilDate)
    requires 1000 <= d.year <= 9999
    ensures ParseIso(Format(d)) == Some(d)
  {
    var s := Format(d);
    NatToStringFourDigits(d.year);
    ParseNatToString(d.year);
    assert s[..4] == NatToString(d.year);
    ParseFields(s, d);
  }

  /** A text with the `YYYY-MM-DD` shape whose fields hold a day's numbers parses as
      that day. */
  lemma ParseFields(s: string, d: CivilDate)
    requires |s| == 10 && s[4] == '-' && s[7] == '-'
    requires DigitsIn(s, 0, 4) && DigitsIn(s, 5, 7) && DigitsIn(s, 8, 10)
    requires ParseDigits(s[..4]) == d.year
    requires DigitValue(s[5]) * 10 + DigitValue(s[6]) == d.month
    requires DigitValue(s[8]) * 10 + DigitValue(s[9]) == d.day
    ensures ParseIso(s) == Some(d)
  {
  }

  /** Printing a parsed day gives the text back, unless the year had a leading zero. */
  lemma FormatParse(s: string)
    requires ParseIso(s).Some? && s[0] != '0'
    ensures Format(ParseIso(s).value) == s
  {
    ParseIsoFields(s);
    FormatDigits(ParseIso(s).value, s);
  }

  /** The fields of a parsed day, read off the text. */
  lemma ParseIsoFields(s: string)
    requires ParseIso(s).Some?
    ensures |s| == 10 && s[4] == '-' && s[7] == '-'
    ensures DigitsIn(s, 0, 4) && DigitsIn(s, 5, 7) && DigitsIn(s, 8, 10)
    ensures ParseIso(s).value.year == ParseDigits(s[..4])
    ensures ParseIso(s).value.month == DigitValue(s[5]) * 10 + DigitValue(s[6])
    ensures ParseIso(s).value.day == DigitValue(s[8]) * 10 + DigitValue(s[9])
  {
  }

  lemma FormatDigits(d: CivilDate, s: string)
    requires |s| == 10 && s[4] == '-' && s[7] == '-' && s[0] != '0'
    requires DigitsIn(s, 0, 4) && DigitsIn(s, 5, 7) && DigitsIn(s, 8, 10)
    requires d.year == ParseDigits(s[..4])
    requires d.month == DigitValue(s[5]) * 10 + DigitValue(s[6])
    requires d.day == DigitValue(s[8]) * 10 + DigitValue(s[9])
    ensures Format(d) == s
  {
    YearOfDigits(d.year, s);
    MonthDayOfDigits(d, s);
    FormatOfFields(d, s);
  }

  lemma YearOfDigits(y: int, s: string)
    requires |s| == 10 && s[0] != '0' && DigitsIn(s, 0, 4)
    requires y == ParseDigits(s[..4])
    ensures IntToString(y) == s[..4]
  {
    NatToStringOfDigits(s[..4]);
  }

  lemma MonthDayOfDigits(d: CivilDate, s: string)
    requires |s| == 10 && DigitsIn(s, 5, 7) && DigitsIn(s, 8, 10)
    requires d.month == DigitValue(s[5]) * 10 + DigitValue(s[6])
    requires d.day == DigitValue(s[8]) * 10 + DigitValue(s[9])
    ensures TwoDigits(d.month) == s[5..7] && TwoDigits(d.day) == s[8..]
  {
    TwoDigitsAt(s, 5, d.month);
    TwoDigitsAt(s, 8, d.day);
    assert s[8..] == s[8..10];
  }

  lemma TwoDigitsAt(s: string, i: nat, n: nat)
    requires i + 2 <= |s| && IsDigit(s[i]) && IsDigit(s[i + 1])
    requires n == DigitValue(s[i]) * 10 + DigitValue(s[i + 1]) && 1 <= n <= 31
    ensures TwoDigits(n) == s[i..i + 2]
  {
    TwoDigitsOfDigits(s[i], s[i + 1]);
    assert s[i..i + 2] == [s[i], s[i + 1]];
  }

  /** A day prints as `s` when `s` has the hyphens where `Format` puts them and the
      year, month and day printed in between. */
  lemma FormatOfFields(d: CivilDate, s: string)
    requires |s| == 10 && s[4] == '-' && s[7] == '-'
    requires IntToString(d.year) == s[..4]
    requires TwoDigits(d.month) == s[5..7] && TwoDigits(d.day) == s[8..]
    ensures Format(d) == s
  {
    assert s == s[..4] + "-" + s[5..7] + "-" + s[8..];
  }

  lemma TwoDigitsOfDigits(a: char, b: char)
    requires IsDigit(a) && IsDigit(b)
    requires 1 <= DigitValue(a) * 10 + DigitValue(b) <= 31
    ensures TwoDigits(DigitValue(a) * 10 + DigitValue(b)) == [a, b]
  {
    DivModTen(DigitValue(a), DigitValue(b));
  }

  lemma DivModTen(a: int, b: int)
    requires 0 <= b < 10
    ensures (a * 10 + b) / 10 == a && (a * 10 + b) % 10 == b
  {
  }
}
