/**
 * The creation date the generator stamps into both banners:
 * `datetime.now().strftime("%d-%b-%Y")` in the C locale, e.g. `07-Mar-2016`.
 * The clock itself is not modelled; the date is an input.
 */
module Dates {
  import opened Wrappers
  import opened Identifiers

  datatype CalendarDate = CalendarDate(year: int, month: int, day: int)

  /**
   * A four-digit year, a month from 1 to 12 and a day from 1 to 31. Days past
   * the end of a shorter month are not excluded; `Format` is defined on them
   * all the same.
   */
  predicate Valid(d: CalendarDate) {
    1000 <= d.year <= 9999 && 1 <= d.month <= 12 && 1 <= d.day <= 31
  }

  /** `%b` in the C locale. */
  const MonthAbbrevs: seq<string> :=
    ["Jan", "Feb", "Mar", "Apr", "May", "Jun", "Jul", "Aug", "Sep", "Oct", "Nov", "Dec"]

  function DigitChar(n: int): char
    requires 0 <= n <= 9
  {
    '0' + n as char
  }

  function DigitValue(c: char): int {
    c as int - '0' as int
  }

  /** `n` in `width` decimal digits, zero-padded (`%d` has width 2, `%Y` width 4 here). */
  function Digits(n: nat, width: nat): (s: string)
    ensures |s| == width
    ensures forall k :: 0 <= k < |s| ==> IsAsciiDigit(s[k])
  {
    if width == 0 then "" else Digits(n / 10, width - 1) + [DigitChar(n % 10)]
  }

  /** The value of a string of decimal digits. */
  function DigitsValue(s: string): int {
    if s == [] then 0 else 10 * DigitsValue(s[..|s| - 1]) + DigitValue(s[|s| - 1])
  }

  function Pow10(k: nat): (p: nat)
    ensures p >= 1
  {
    if k == 0 then 1 else 10 * Pow10(k - 1)
  }

  /** Reading back `width` zero-padded digits gives the number, when it fits. */
  lemma {:induction false} DigitsRoundTrip(n: nat, width: nat)
    requires n < Pow10(width)
    ensures DigitsValue(Digits(n, width)) == n
  {
    if width > 0 {
      DigitsRoundTrip(n / 10, width - 1);
      var s := Digits(n, width);
      assert s[..|s| - 1] == Digits(n / 10, width - 1);
    }
  }

  /** `strftime("%d-%b-%Y")`. */
  function Format(d: CalendarDate): (s: string)
    requires Valid(d)
    ensures |s| == 11 && s[2] == '-' && s[6] == '-'
  {
    Digits(d.day, 2) + "-" + MonthAbbrevs[d.month - 1] + "-" + Digits(d.year, 4)
  }

  /** Reads a `DD-Mon-YYYY` stamp back. */
  function Parse(s: string): (r: Option<CalendarDate>)
    ensures r.Some? ==> Valid(r.value)
  {
    if |s| != 11 || s[2] != '-' || s[6] != '-' then None
    else if !(IsAsciiDigit(s[0]) && IsAsciiDigit(s[1]) && IsAsciiDigit(s[7]) && IsAsciiDigit(s[8]) && IsAsciiDigit(s[9]) && IsAsciiDigit(s[10])) then None
    else
      var month := MonthOf(s[3..6]);
      var d := CalendarDate(DigitsValue(s[7..]), month, DigitsValue(s[..2]));
      if Valid(d) then Some(d) else None
  }

  /** The month number of an abbreviation, or 0. */
  function MonthOf(abbrev: string): (m: int)
    ensures 0 <= m <= 12
    ensures m >= 1 ==> MonthAbbrevs[m - 1] == abbrev
  {
    if abbrev == "Jan" then 1 else if abbrev == "Feb" then 2 else if abbrev == "Mar" then 3
    else if abbrev == "Apr" then 4 else if abbrev == "May" then 5 else if abbrev == "Jun" then 6
    else if abbrev == "Jul" then 7 else if abbrev == "Aug" then 8 else if abbrev == "Sep" then 9
    else if abbrev == "Oct" then 10 else if abbrev == "Nov" then 11 else if abbrev == "Dec" then 12
    else 0
  }

  lemma MonthOfAbbrev(m: int)
    requires 1 <= m <= 12
    ensures MonthOf(MonthAbbrevs[m - 1]) == m
  {
  }

  /** The stamp determines the date: parsing it gives the date back. */
  lemma ParseFormat(d: CalendarDate)
    requires Valid(d)
    ensures Parse(Format(d)) == Some(d)
  {
    var s := Format(d);
    var day, abbrev, year := Digits(d.day, 2), MonthAbbrevs[d.month - 1], Digits(d.year, 4);
    assert s == day + "-" + abbrev + "-" + year;
    assert s[..2] == day && s[3..6] == abbrev && s[7..] == year;
    DigitsRoundTrip(d.day, 2);
    DigitsRoundTrip(d.year, 4);
    MonthOfAbbrev(d.month);
  }

  /** Different dates are stamped differently. */
  lemma FormatInjective(a: CalendarDate, b: CalendarDate)
    requires Valid(a) && Valid(b) && Format(a) == Format(b)
    ensures a == b
  {
    ParseFormat(a);
    ParseFormat(b);
  }

  /** A stamp holds only digits, letters and dashes, so never a `%`. */
  lemma FormatNoPercent(d: CalendarDate)
    requires Valid(d)
    ensures '%' !in Format(d)
  {
    var s := Format(d);
    assert s == Digits(d.day, 2) + "-" + MonthAbbrevs[d.month - 1] + "-" + Digits(d.year, 4);
    forall k | 0 <= k < |s| ensures s[k] != '%' {
      if k >= 3 && k < 6 {
        assert s[k] == MonthAbbrevs[d.month - 1][k - 3];
      }
    }
  }
}
