/** `formatDate` of the ingestion route: a fixed `DD-Mon-YYYY` rendering of
    a local calendar date, with a parser that inverts it. */
module DisplayDate {
  import opened Wrappers

  /** `Date.getMonth()`: 0 for January. */
  type Month = m: int | 0 <= m < 12

  /** `Date.getDate()`: the day of the month. */
  type Day = d: int | 1 <= d <= 31 witness 1

  /** The local calendar fields `formatDate` reads from a `Date`. */
  datatype CalendarDate = CalendarDate(year: int, month: Month, day: Day)

  /** The month table of `formatDate`; September is spelled `Sept`. */
  const MonthNames: seq<string> :=
    ["Jan", "Feb", "Mar", "Apr", "May", "Jun", "Jul", "Aug", "Sept", "Oct", "Nov", "Dec"]

  // ------------------------------------------------------------- digits

  predicate IsDigit(c: char) {
    '0' <= c <= '9'
  }

  function DigitChar(d: int): (c: char)
    requires 0 <= d < 10
    ensures IsDigit(c)
  {
    ('0' as int + d) as char
  }

  function DigitValue(c: char): (v: int)
    ensures IsDigit(c) ==> 0 <= v < 10
  {
    c as int - '0' as int
  }

  predicate IsDigits(s: string) {
    |s| > 0 && forall i :: 0 <= i < |s| ==> IsDigit(s[i])
  }

  /** `String(n)` for a non-negative integer: digits only, and no leading
      zero unless the number is zero itself. */
  function Decimal(n: nat): (r: string)
    ensures IsDigits(r)
    ensures r[0] == '0' ==> n == 0 && |r| == 1
  {
    if n < 10 then [DigitChar(n)] else Decimal(n / 10) + [DigitChar(n % 10)]
  }

  /** The value of a string of decimal digits. */
  function ParseDecimal(s: string): (n: nat)
    requires forall i :: 0 <= i < |s| ==> IsDigit(s[i])
  {
    if |s| == 0 then 0
    else 10 * ParseDecimal(s[..|s| - 1]) + DigitValue(s[|s| - 1])
  }

  lemma {:induction false} DecimalRoundTrip(n: nat)
    ensures ParseDecimal(Decimal(n)) == n
  {
    if n >= 10 {
      var s := Decimal(n);
      assert s[..|s| - 1] == Decimal(n / 10);
      DecimalRoundTrip(n / 10);
    }
  }

  /** A leading non-zero digit bounds the value from below. */
  lemma {:induction false} LeadingDigitBound(s: string)
    requires IsDigits(s)
    ensures ParseDecimal(s) >= DigitValue(s[0])
    decreases |s|
  {
    if |s| > 1 {
      LeadingDigitBound(s[..|s| - 1]);
    }
  }

  /** `Decimal` is the only digit string without a leading zero for its
      value: any such string is `String` of the number it denotes. */
  lemma {:induction false} DecimalUnique(s: string)
    requires IsDigits(s) && (s[0] == '0' ==> |s| == 1)
    ensures Decimal(ParseDecimal(s)) == s
    decreases |s|
  {
    var last := s[|s| - 1];
    assert DigitChar(DigitValue(last)) == last;
    if |s| > 1 {
      var p := s[..|s| - 1];
      assert p[0] == s[0];
      LeadingDigitBound(p);
      DecimalUnique(p);
      assert p + [last] == s;
    }
  }

  /** `String(year)`: a minus sign for years before 1 BCE. */
  function YearText(y: int): string {
    if y < 0 then "-" + Decimal(-y) else Decimal(y)
  }

  /** `s.padStart(2, '0')`. */
  function PadStart2(s: string): string {
    if |s| >= 2 then s else seq(2 - |s|, _ => '0') + s
  }

  /** The two-character day field. */
  function DayText(d: Day): (r: string)
    ensures |r| == 2 && IsDigit(r[0]) && IsDigit(r[1])
    ensures 10 * DigitValue(r[0]) + DigitValue(r[1]) == d
  {
    if d < 10 then
      assert Decimal(d) == [DigitChar(d)];
      PadStart2(Decimal(d))
    else
      assert Decimal(d) == [DigitChar(d / 10), DigitChar(d % 10)];
      PadStart2(Decimal(d))
  }

  // ------------------------------------------------------------- format

  /** `formatDate`: day, month abbreviation and year joined by `-`. */
  function FormatDate(d: CalendarDate): (r: string)
    ensures |r| > |MonthNames[d.month]| + 4
    ensures r[..2] == DayText(d.day) && r[2] == '-'
    ensures r[3..3 + |MonthNames[d.month]|] == MonthNames[d.month]
    ensures r[3 + |MonthNames[d.month]|] == '-'
    ensures r[4 + |MonthNames[d.month]|..] == YearText(d.year)
  {
    DayText(d.day) + "-" + MonthNames[d.month] + "-" + YearText(d.year)
  }

  /** `String(n)` is all digits, so it holds no `<`. */
  lemma DecimalHasNoBracket(n: nat)
    ensures '<' !in Decimal(n)
  {
    var s := Decimal(n);
    assert forall i :: 0 <= i < |s| ==> s[i] != '<';
  }

  /** A formatted date holds no `<`, so a reader can find where it ends
      inside markup. */
  lemma FormatHasNoBracket(d: CalendarDate)
    ensures '<' !in FormatDate(d)
  {
    var day := DayText(d.day);
    assert '<' !in day;
    assert '<' !in MonthNames[d.month];
    if d.year < 0 {
      DecimalHasNoBracket(-d.year);
    } else {
      DecimalHasNoBracket(d.year);
    }
    assert FormatDate(d) == day + "-" + MonthNames[d.month] + "-" + YearText(d.year);
  }

  // -------------------------------------------------------------- parse

  /** The first month, from `m` on, whose name followed by `-` starts `t`. */
  function MonthAt(t: string, m: nat): (r: Option<Month>)
    requires m <= 12
    ensures r.Some? ==> m <= r.value && |MonthNames[r.value]| < |t|
    decreases 12 - m
  {
    if m == 12 then None
    else
      var name := MonthNames[m];
      if |name| < |t| && t[..|name|] == name && t[|name|] == '-' then Some(m)
      else MonthAt(t, m + 1)
  }

  function ParseYear(t: string): Option<int> {
    if |t| > 0 && t[0] == '-' && IsDigits(t[1..]) then Some(0 - ParseDecimal(t[1..]))
    else if IsDigits(t) then Some(ParseDecimal(t))
    else None
  }

  /** Reads a `DD-Mon-YYYY` string back into its calendar fields. */
  function ParseDate(s: string): Option<CalendarDate> {
    if |s| < 3 || !IsDigit(s[0]) || !IsDigit(s[1]) || s[2] != '-' then None
    else
      var day := 10 * DigitValue(s[0]) + DigitValue(s[1]);
      if !(1 <= day <= 31) then None
      else match MonthAt(s[3..], 0)
        case None => None
        case Some(m) =>
          match ParseYear(s[4 + |MonthNames[m]|..])
          case None => None
          case Some(y) => Some(CalendarDate(y, m, day))
  }

  /** The first three letters tell the months apart. */
  lemma MonthPrefixesDistinct(a: Month, b: Month)
    requires a != b
    ensures |MonthNames[a]| >= 3 && |MonthNames[b]| >= 3
    ensures || MonthNames[a][0] != MonthNames[b][0]
            || MonthNames[a][1] != MonthNames[b][1]
            || MonthNames[a][2] != MonthNames[b][2]
  {
  }

  lemma {:induction false} MonthAtFinds(name: Month, rest: string, m: nat)
    requires m <= name
    ensures MonthAt(MonthNames[name] + "-" + rest, m) == Some(name)
    decreases 12 - m
  {
    var t := MonthNames[name] + "-" + rest;
    var n := MonthNames[m];
    if m < name {
      MonthPrefixesDistinct(m, name);
      assert t[0] == MonthNames[name][0] && t[1] == MonthNames[name][1] && t[2] == MonthNames[name][2];
      assert !(|n| < |t| && t[..|n|] == n);
      MonthAtFinds(name, rest, m + 1);
    } else {
      assert t[..|n|] == n;
    }
  }

  /** The year text is canonical: a minus sign exactly for years before
      1 BCE, then the digits of the magnitude with no leading zero. */
  lemma YearCanonical(y: int)
    ensures var r := YearText(y);
            |r| > 0 && (r[0] == '-' <==> y < 0)
            && var digits := if y < 0 then r[1..] else r;
               IsDigits(digits) && (digits[0] == '0' ==> y == 0 && |digits| == 1)
  {
    if y < 0 {
      assert YearText(y)[1..] == Decimal(-y);
    }
  }

  lemma YearRoundTrip(y: int)
    ensures ParseYear(YearText(y)) == Some(y)
  {
    var t := YearText(y);
    if y < 0 {
      assert t[0] == '-' && t[1..] == Decimal(-y);
      DecimalRoundTrip(-y);
    } else {
      assert t == Decimal(y) && IsDigit(t[0]);
      DecimalRoundTrip(y);
    }
  }

  /** `formatDate` loses nothing: parsing its output gives the date back. */
  lemma FormatRoundTrip(d: CalendarDate)
    ensures ParseDate(FormatDate(d)) == Some(d)
  {
    var s := FormatDate(d);
    var name := MonthNames[d.month];
    assert s[3..] == name + "-" + YearText(d.year);
    MonthAtFinds(d.month, YearText(d.year), 0);
    YearRoundTrip(d.year);
  }

  /** Different dates render differently. */
  lemma FormatInjective(d1: CalendarDate, d2: CalendarDate)
    requires FormatDate(d1) == FormatDate(d2)
    ensures d1 == d2
  {
    FormatRoundTrip(d1);
    FormatRoundTrip(d2);
  }

  /** 5 March 2024 renders as `05-Mar-2024`; the ninth month as `Sept`. */
  lemma FormatExamples()
    ensures FormatDate(CalendarDate(2024, 2, 5)) == "05-Mar-2024"
    ensures FormatDate(CalendarDate(2024, 8, 30)) == "30-Sept-2024"
  {
    assert Decimal(2024) == "2024" by {
      assert Decimal(2) == "2";
      assert Decimal(20) == "20";
      assert Decimal(202) == "202";
    }
    assert Decimal(5) == "5";
    assert Decimal(30) == "30" by { assert Decimal(3) == "3"; }
  }
}
