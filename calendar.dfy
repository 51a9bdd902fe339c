/**
 * Calendar dates and stored timestamps, the clock reading that `getTodayNews`
 * formats into a `YYYY-MM-DD` literal, and the reading of such a literal back
 * into a date (what the database does with the `DATE(date) = ?` parameter).
 */
module Calendar {
  import opened Wrappers

  /** A calendar date: what SQL's DATE() keeps of a stored timestamp. */
  datatype Date = Date(year: nat, month: nat, day: nat)

  /** A stored `date` column: its calendar date and a time of day in seconds since midnight. */
  datatype DateTime = DateTime(date: Date, secondsOfDay: nat)

  /** Chronological order on calendar dates. */
  predicate DateLeq(a: Date, b: Date) {
    a.year < b.year ||
    (a.year == b.year && (a.month < b.month || (a.month == b.month && a.day <= b.day)))
  }

  /** Chronological order on timestamps, the order `ORDER BY date` uses. */
  predicate DateTimeLeq(a: DateTime, b: DateTime) {
    (a.date != b.date && DateLeq(a.date, b.date)) ||
    (a.date == b.date && a.secondsOfDay <= b.secondsOfDay)
  }

  lemma DateTimeLeqTransitive(a: DateTime, b: DateTime, c: DateTime)
    requires DateTimeLeq(a, b) && DateTimeLeq(b, c)
    ensures DateTimeLeq(a, c)
  {
  }

  lemma DateTimeLeqTotal(a: DateTime, b: DateTime)
    ensures DateTimeLeq(a, b) || DateTimeLeq(b, a)
  {
  }

  /** `d BETWEEN start AND end`, both ends inclusive. */
  predicate Between(d: Date, start: Date, end: Date) {
    DateLeq(start, d) && DateLeq(d, end)
  }

  /** No date lies in a range whose start is after its end. */
  lemma NothingBetween(d: Date, start: Date, end: Date)
    requires !DateLeq(start, end)
    ensures !Between(d, start, end)
  {
  }

  /**
   * What `new Date()` reports through getFullYear(), getMonth() (zero-based)
   * and getDate(); the clock itself is not modelled, its reading is a parameter.
   */
  datatype Clock = Clock(fullYear: nat, monthIndex: nat, dayOfMonth: nat)

  predicate ValidClock(c: Clock) {
    c.monthIndex < 12 && 1 <= c.dayOfMonth <= 31
  }

  /** The calendar date the clock reading denotes. */
  function ClockDate(c: Clock): Date {
    Date(c.fullYear, c.monthIndex + 1, c.dayOfMonth)
  }

  predicate IsDigit(ch: char) {
    '0' <= ch <= '9'
  }

  predicate AllDigits(s: string) {
    forall i :: 0 <= i < |s| ==> IsDigit(s[i])
  }

  function DigitChar(d: nat): (ch: char)
    requires d < 10
    ensures IsDigit(ch) && ch as int - '0' as int == d
  {
    (d + '0' as int) as char
  }

  /** `String(n)` for a non-negative integer: its decimal digits, no leading zeros. */
  function DecimalString(n: nat): (r: string)
    ensures 1 <= |r| && AllDigits(r)
    ensures n < 10 <==> |r| == 1
    ensures n < 100 ==> |r| <= 2
    ensures |r| > 1 ==> r[0] != '0'
  {
    if n < 10 then [DigitChar(n)] else DecimalString(n / 10) + [DigitChar(n % 10)]
  }

  /** The number a non-empty string of decimal digits denotes. */
  function DecimalValue(s: string): nat
    requires 1 <= |s| && AllDigits(s)
    decreases |s|
  {
    var last := s[|s| - 1] as int - '0' as int;
    if |s| == 1 then last else DecimalValue(s[..|s| - 1]) * 10 + last
  }

  lemma {:induction false} DecimalRoundTrip(n: nat)
    ensures DecimalValue(DecimalString(n)) == n
  {
    if n >= 10 {
      DecimalRoundTrip(n / 10);
      var s := DecimalString(n);
      assert s[..|s| - 1] == DecimalString(n / 10);
    }
  }

  /**
   * `s.padStart(width, pad)` with a one-character pad: `s` itself when it is
   * already `width` long, otherwise `s` preceded by enough copies of `pad`.
   */
  function PadStart(s: string, width: nat, pad: char): (r: string)
    ensures |r| == if |s| < width then width else |s|
    ensures r[|r| - |s|..] == s
    ensures forall i :: 0 <= i < |r| - |s| ==> r[i] == pad
  {
    if |s| < width then seq(width - |s|, _ => pad) + s else s
  }

  /** A number below 100, zero-padded to two digits, reads back as that number. */
  lemma TwoDigits(n: nat)
    requires n < 100
    ensures var p := PadStart(DecimalString(n), 2, '0');
      |p| == 2 && AllDigits(p) && DecimalValue(p) == n
  {
    var s := DecimalString(n);
    var p := PadStart(s, 2, '0');
    DecimalRoundTrip(n);
    if n < 10 {
      assert p == ['0'] + s;
      assert p[..1] == ['0'];
    } else {
      assert p == s;
    }
  }

  /** How a `year-month-day` literal with two-character month and day splits back into its parts. */
  lemma LiteralParts(year: string, month: string, day: string)
    requires |month| == 2 && |day| == 2
    ensures var r := year + "-" + month + "-" + day;
      |r| == |year| + 6 && r[..|r| - 6] == year && r[|r| - 6] == '-' &&
      r[|r| - 5..|r| - 3] == month && r[|r| - 3] == '-' && r[|r| - 2..] == day
  {
    var r := year + "-" + month + "-" + day;
    assert r == (year + "-") + (month + "-" + day);
    assert (month + "-" + day)[..2] == month;
    assert (month + "-" + day)[3..] == day;
  }

  /** The literal `getTodayNews` builds: `${year}-${month}-${day}` with month and day padded to two digits. */
  function TodayString(c: Clock): (r: string)
    requires ValidClock(c)
    ensures |r| == |DecimalString(c.fullYear)| + 6
    ensures r[..|r| - 6] == DecimalString(c.fullYear)
    ensures r[|r| - 6] == '-' && r[|r| - 3] == '-'
    ensures AllDigits(r[|r| - 5..|r| - 3]) && AllDigits(r[|r| - 2..])
  {
    var year := DecimalString(c.fullYear);
    var month := PadStart(DecimalString(c.monthIndex + 1), 2, '0');
    var day := PadStart(DecimalString(c.dayOfMonth), 2, '0');
    TwoDigits(c.monthIndex + 1);
    TwoDigits(c.dayOfMonth);
    LiteralParts(year, month, day);
    year + "-" + month + "-" + day
  }

  /** Whether `s` has the form `<digits>-<2 digits>-<2 digits>`. */
  predicate IsDateLiteral(s: string) {
    7 <= |s| && s[|s| - 6] == '-' && s[|s| - 3] == '-' &&
    AllDigits(s[..|s| - 6]) && AllDigits(s[|s| - 5..|s| - 3]) && AllDigits(s[|s| - 2..])
  }

  /**
   * The date a `<digits>-<2 digits>-<2 digits>` literal denotes, or None for
   * any other string. MySQL accepts more spellings; only this one is read.
   */
  function ParseDate(s: string): Option<Date> {
    if IsDateLiteral(s) then
      Some(Date(DecimalValue(s[..|s| - 6]), DecimalValue(s[|s| - 5..|s| - 3]), DecimalValue(s[|s| - 2..])))
    else
      None
  }

  /** A `year-month-day` literal of digit parts reads back as the values of its parts. */
  lemma ParseLiteral(year: string, month: string, day: string)
    requires 1 <= |year| && AllDigits(year)
    requires |month| == 2 && AllDigits(month) && |day| == 2 && AllDigits(day)
    ensures ParseDate(year + "-" + month + "-" + day) == Some(Date(DecimalValue(year), DecimalValue(month), DecimalValue(day)))
  {
    LiteralParts(year, month, day);
  }

  /** The literal built from the clock denotes exactly the clock's calendar date. */
  lemma TodayStringDenotesClockDate(c: Clock)
    requires ValidClock(c)
    ensures ParseDate(TodayString(c)) == Some(ClockDate(c))
  {
    var year := DecimalString(c.fullYear);
    var month := PadStart(DecimalString(c.monthIndex + 1), 2, '0');
    var day := PadStart(DecimalString(c.dayOfMonth), 2, '0');
    assert TodayString(c) == year + "-" + month + "-" + day;
    assert ParseDate(year + "-" + month + "-" + day) == Some(ClockDate(c)) by {
      TwoDigits(c.monthIndex + 1);
      TwoDigits(c.dayOfMonth);
      DecimalRoundTrip(c.fullYear);
      ParseLiteral(year, month, day);
    }
  }
}
