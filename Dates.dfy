/**
 * The display date written into a new post's `date_splash` column:
 * "DD Month YYYY", with June and July spelled out and every other month
 * given its three-letter English abbreviation. The clock reading is an
 * input (day, month, year) instead of a call to the local clock.
 */
module Dates {
  import opened Wrappers
  import opened Text

  datatype Date = Date(day: nat, month: nat, year: int)

  /** What the local clock can return: a day of month and a month number. */
  predicate IsCalendarDate(d: Date)
  {
    1 <= d.day <= 31 && 1 <= d.month <= 12
  }

  /** chrono's `%b`: English three-letter month abbreviations, January first. */
  const MONTH_ABBREVIATIONS: seq<string> :=
    ["Jan", "Feb", "Mar", "Apr", "May", "Jun", "Jul", "Aug", "Sep", "Oct", "Nov", "Dec"]

  /** The month token: full names for the two exceptions, the abbreviation otherwise. */
  function MonthName(month: nat): string
    requires 1 <= month <= 12
  {
    match month
    case 6 => "June"
    case 7 => "July"
    case _ => MONTH_ABBREVIATIONS[month - 1]
  }

  /** `{:02}` on a day of month: two digits, zero-padded. */
  function TwoDigits(n: nat): (r: string)
    requires n < 100
    ensures |r| == 2 && AllDigits(r)
    ensures DigitValue(r[0]) * 10 + DigitValue(r[1]) == n
  {
    [DigitChar(n / 10), DigitChar(n % 10)]
  }

  /** `custom_date_format`: `format!("{:02} {} {}", day, month_name, year)`. */
  function CustomDateFormat(d: Date): (r: string)
    requires IsCalendarDate(d)
    ensures |r| >= 8 && r[2] == ' '
  {
    TwoDigits(d.day) + " " + MonthName(d.month) + " " + IntToDecimal(d.year)
  }

  /** The month number whose token is `token`, if any. */
  function MonthNumber(token: string): (r: Option<nat>)
    ensures r.Some? ==> 1 <= r.value <= 12 && MonthName(r.value) == token
  {
    if token == "June" then Some(6)
    else if token == "July" then Some(7)
    else MonthFrom(token, 1)
  }

  function MonthFrom(token: string, m: nat): (r: Option<nat>)
    requires 1 <= m
    ensures r.Some? ==> m <= r.value <= 12 && MonthName(r.value) == token
    decreases 13 - m
  {
    if m > 12 then None
    else if m != 6 && m != 7 && MONTH_ABBREVIATIONS[m - 1] == token then Some(m)
    else MonthFrom(token, m + 1)
  }

  /** Reads a display date back: the inverse of `CustomDateFormat`. */
  function ParseDate(s: string): Option<Date>
  {
    var fields := Split(s, ' ');
    if |fields| != 3 || |fields[0]| != 2 || !AllDigits(fields[0]) then None
    else
      var month := MonthNumber(fields[1]);
      var year := ParseInt(fields[2]);
      if month.None? || year.None? then None
      else Some(Date(DigitValue(fields[0][0]) * 10 + DigitValue(fields[0][1]), month.value, year.value))
  }

  /** The three space-separated fields of a display date. */
  lemma DateFields(d: Date)
    requires IsCalendarDate(d)
    ensures Split(CustomDateFormat(d), ' ') == [TwoDigits(d.day), MonthName(d.month), IntToDecimal(d.year)]
  {
    var day, month, year := TwoDigits(d.day), MonthName(d.month), IntToDecimal(d.year);
    assert ' ' !in day;
    assert ' ' !in month by {
      assert forall k :: 0 <= k < 12 ==> ' ' !in MONTH_ABBREVIATIONS[k];
    }
    assert CustomDateFormat(d) == day + [' '] + (month + [' '] + year);
    SplitAfter(day, ' ', month + [' '] + year);
    SplitAfter(month, ' ', year);
    SplitWhole(year, ' ');
  }

  /**
   * The layout promised by the formatter: a two-digit zero-padded day,
   * then the month token (June and July in full, any other month a
   * three-letter abbreviation), then the year, separated by single spaces.
   */
  lemma {:induction false} DateLayout(d: Date)
    requires IsCalendarDate(d)
    ensures var fields := Split(CustomDateFormat(d), ' ');
      && |fields| == 3
      && |fields[0]| == 2 && AllDigits(fields[0])
      && DigitValue(fields[0][0]) * 10 + DigitValue(fields[0][1]) == d.day
      && (d.month == 6 ==> fields[1] == "June")
      && (d.month == 7 ==> fields[1] == "July")
      && (d.month != 6 && d.month != 7 ==> |fields[1]| == 3 && fields[1] == MONTH_ABBREVIATIONS[d.month - 1])
      && ParseInt(fields[2]) == Some(d.year)
  {
    DateFields(d);
    IntDecimalRoundTrip(d.year);
  }

  lemma MonthNameRoundTrip(m: nat)
    requires 1 <= m <= 12
    ensures MonthNumber(MonthName(m)) == Some(m)
  {
  }

  /** Formatting loses nothing: the date can be read back from its display form. */
  lemma {:induction false} DateRoundTrip(d: Date)
    requires IsCalendarDate(d)
    ensures ParseDate(CustomDateFormat(d)) == Some(d)
  {
    DateFields(d);
    MonthNameRoundTrip(d.month);
    IntDecimalRoundTrip(d.year);
  }
}
