/**
 * Timestamp normalisation (`get_datetime`): the bracketed access-log time
 * `DD/Mon/YYYY:HH:MM:SS +HHMM` is read the way `strptime` with `%d/%b/%Y:%H:%M:%S %z` reads it,
 * moved to UTC and stripped of its zone, on the proleptic Gregorian calendar.
 */
module Timestamps {
  import opened Text
  import opened Wrappers
  import opened Arith

  datatype Date = Date(year: int, month: int, day: int)

  /** A naive wall-clock time with whole seconds (the source never produces fractions). */
  datatype DateTime = DateTime(date: Date, hour: int, minute: int, second: int)

  /** A parsed zoned time: local wall clock and the UTC offset in minutes (east positive). */
  datatype Stamp = Stamp(local: DateTime, offset: int)

  /** Why `get_datetime` raises: the text is not a valid time, or the UTC time leaves years 1..9999. */
  datatype DateError = BadFormat | OutOfRange

  predicate IsLeapYear(y: int) {
    y % 4 == 0 && (y % 100 != 0 || y % 400 == 0)
  }

  function DaysInMonth(y: int, m: int): int
    requires 1 <= m <= 12
  {
    if m == 2 then (if IsLeapYear(y) then 29 else 28)
    else if m == 4 || m == 6 || m == 9 || m == 11 then 30
    else 31
  }

  /** Days in the months of year `y` before month `m`. */
  function DaysBeforeMonth(y: int, m: int): int
    requires 1 <= m <= 12
  {
    var common := [0, 31, 59, 90, 120, 151, 181, 212, 243, 273, 304, 334][m - 1];
    if m > 2 && IsLeapYear(y) then common + 1 else common
  }

  /** Days in the years before year `y`, counted from 1 January of year 1 (floor division). */
  function DaysBeforeYear(y: int): int {
    var k := y - 1;
    365 * k + k / 4 - k / 100 + k / 400
  }

  /** Day number of a date; 1 January of year 1 is day 1 (Python's `toordinal`). */
  function Ordinal(d: Date): int
    requires 1 <= d.month <= 12
  {
    DaysBeforeYear(d.year) + DaysBeforeMonth(d.year, d.month) + d.day
  }

  /** A calendar date in some year; the year is checked separately against 1..9999. */
  predicate ValidDate(d: Date) {
    1 <= d.month <= 12 && 1 <= d.day <= DaysInMonth(d.year, d.month)
  }

  predicate InYearRange(y: int) { 1 <= y <= 9999 }

  /** A value Python's `datetime` can hold. */
  predicate Valid(t: DateTime) {
    && ValidDate(t.date) && InYearRange(t.date.year)
    && 0 <= t.hour < 24 && 0 <= t.minute < 60 && 0 <= t.second < 60
  }

  /** A value `strptime` can return: a valid time and an offset strictly inside one day. */
  predicate ValidStamp(s: Stamp) {
    Valid(s.local) && -1440 < s.offset < 1440
  }

  /** Seconds since the start of day 0 of the wall-clock reading. */
  function Seconds(t: DateTime): int
    requires 1 <= t.date.month <= 12
  {
    ((Ordinal(t.date) * 24 + t.hour) * 60 + t.minute) * 60 + t.second
  }

  /** The instant a zoned time denotes, as UTC seconds. */
  function Instant(s: Stamp): int
    requires 1 <= s.local.date.month <= 12
  {
    Seconds(s.local) - s.offset * 60
  }

  // ---------------------------------------------------------------- calendar facts

  /** A year has 366 days when it is a leap year and 365 otherwise. */
  lemma YearLength(y: int)
    ensures DaysBeforeYear(y + 1) == DaysBeforeYear(y) + (if IsLeapYear(y) then 366 else 365)
  {
    var k := y - 1;
    StepDiv(k, 4);
    StepDiv(k, 100);
    StepDiv(k, 400);
  }

  /** Floor division by `n` goes up by one exactly at multiples of `n`. */
  lemma StepDiv(k: int, n: int)
    requires n >= 1
    ensures (k + 1) / n == k / n + (if (k + 1) % n == 0 then 1 else 0)
  {
    var q, r := k / n, k % n;
    if r + 1 == n {
      DivModUnique(k + 1, n, q + 1, 0);
    } else {
      DivModUnique(k + 1, n, q, r + 1);
    }
  }

  lemma {:induction false} DaysBeforeYearMono(a: int, b: int)
    requires a <= b
    ensures DaysBeforeYear(a) + 365 * (b - a) <= DaysBeforeYear(b)
    decreases b - a
  {
    if a < b {
      DaysBeforeYearMono(a, b - 1);
      YearLength(b - 1);
    }
  }

  /** The months of a year fill it exactly, in order. */
  lemma MonthsFillYear(y: int, m: int)
    requires 1 <= m <= 12
    ensures 0 <= DaysBeforeMonth(y, m)
    ensures m < 12 ==> DaysBeforeMonth(y, m) + DaysInMonth(y, m) == DaysBeforeMonth(y, m + 1)
    ensures m == 12 ==> DaysBeforeMonth(y, m) + DaysInMonth(y, m) == (if IsLeapYear(y) then 366 else 365)
  {
  }

  /** A valid date's day number lies inside its year. */
  lemma OrdinalInYear(d: Date)
    requires ValidDate(d)
    ensures DaysBeforeYear(d.year) < Ordinal(d) <= DaysBeforeYear(d.year + 1)
  {
    YearLength(d.year);
    MonthsFillYear(d.year, d.month);
    MonthEndBound(d.year, d.month);
  }

  lemma MonthEndBound(y: int, m: int)
    requires 1 <= m <= 12
    ensures DaysBeforeMonth(y, m) + DaysInMonth(y, m) <= (if IsLeapYear(y) then 366 else 365)
  {
  }

  /** Later months start no earlier than earlier months end. */
  lemma MonthsOrdered(y: int, m: int, m': int)
    requires 1 <= m < m' <= 12
    ensures DaysBeforeMonth(y, m) + DaysInMonth(y, m) <= DaysBeforeMonth(y, m')
  {
  }

  /** Distinct valid dates have distinct day numbers. */
  lemma OrdinalInjective(a: Date, b: Date)
    requires ValidDate(a) && ValidDate(b) && Ordinal(a) == Ordinal(b)
    ensures a == b
  {
    OrdinalSameYear(a, b);
    if a.month < b.month {
      MonthsOrdered(a.year, a.month, b.month);
    } else if b.month < a.month {
      MonthsOrdered(a.year, b.month, a.month);
    }
  }

  lemma OrdinalSameYear(a: Date, b: Date)
    requires ValidDate(a) && ValidDate(b) && Ordinal(a) == Ordinal(b)
    ensures a.year == b.year
  {
    OrdinalInYear(a);
    OrdinalInYear(b);
    if a.year < b.year {
      DaysBeforeYearMono(a.year + 1, b.year);
    } else if b.year < a.year {
      DaysBeforeYearMono(b.year + 1, a.year);
    }
  }

  /** The day after a valid date, rolling over month and year ends (leap days included). */
  function NextDay(d: Date): (n: Date)
    requires ValidDate(d)
    ensures ValidDate(n) && Ordinal(n) == Ordinal(d) + 1
  {
    MonthsFillYear(d.year, d.month);
    YearLength(d.year);
    if d.day < DaysInMonth(d.year, d.month) then Date(d.year, d.month, d.day + 1)
    else if d.month < 12 then Date(d.year, d.month + 1, 1)
    else Date(d.year + 1, 1, 1)
  }

  /** The day before a valid date, rolling back over month and year starts. */
  function PrevDay(d: Date): (p: Date)
    requires ValidDate(d)
    ensures ValidDate(p) && Ordinal(p) + 1 == Ordinal(d)
  {
    if d.day > 1 then Date(d.year, d.month, d.day - 1)
    else if d.month > 1 then
      MonthsFillYear(d.year, d.month - 1);
      Date(d.year, d.month - 1, DaysInMonth(d.year, d.month - 1))
    else
      MonthsFillYear(d.year - 1, 12);
      YearLength(d.year - 1);
      Date(d.year - 1, 12, 31)
  }

  /** Wall-clock readings of valid times are distinct when the times are. */
  lemma SecondsInjective(a: DateTime, b: DateTime)
    requires ValidDate(a.date) && ValidDate(b.date)
    requires 0 <= a.hour < 24 && 0 <= a.minute < 60 && 0 <= a.second < 60
    requires 0 <= b.hour < 24 && 0 <= b.minute < 60 && 0 <= b.second < 60
    requires Seconds(a) == Seconds(b)
    ensures a == b
  {
    var ta := (a.hour * 60 + a.minute) * 60 + a.second;
    var tb := (b.hour * 60 + b.minute) * 60 + b.second;
    DivModUnique(Seconds(a), 86400, Ordinal(a.date), ta);
    DivModUnique(Seconds(b), 86400, Ordinal(b.date), tb);
    OrdinalInjective(a.date, b.date);
    DivModUnique(ta, 60, a.hour * 60 + a.minute, a.second);
    DivModUnique(tb, 60, b.hour * 60 + b.minute, b.second);
    DivModUnique(a.hour * 60 + a.minute, 60, a.hour, a.minute);
    DivModUnique(b.hour * 60 + b.minute, 60, b.hour, b.minute);
  }

  // ---------------------------------------------------------------- conversion to UTC

  const MinTime := DateTime(Date(1, 1, 1), 0, 0, 0)
  const MaxTime := DateTime(Date(9999, 12, 31), 23, 59, 59)

  /**
   * `astimezone(utc).replace(tzinfo=None)`: subtract the offset from the wall clock. Since the
   * offset is under a day the date moves by at most one day; a result outside years 1..9999
   * is Python's `OverflowError`.
   */
  function ToUtc(s: Stamp): (r: Result<DateTime, DateError>)
    requires ValidStamp(s)
    ensures r.Success? ==> Valid(r.value) && Seconds(r.value) == Instant(s)
    ensures r.Failure? ==> r.error == OutOfRange
  {
    var t := s.local;
    var total := t.hour * 60 + t.minute - s.offset;
    var date := if total < 0 then PrevDay(t.date) else if total >= 1440 then NextDay(t.date) else t.date;
    var mins := if total < 0 then total + 1440 else if total >= 1440 then total - 1440 else total;
    if InYearRange(date.year) then Success(DateTime(date, mins / 60, mins % 60, t.second))
    else Failure(OutOfRange)
  }

  /** Every valid time lies between the first and the last second Python can represent. */
  lemma ValidBetween(t: DateTime)
    requires Valid(t)
    ensures Seconds(MinTime) <= Seconds(t) <= Seconds(MaxTime)
  {
    OrdinalInYear(t.date);
    DaysBeforeYearMono(1, t.date.year);
    DaysBeforeYearMono(t.date.year + 1, 10000);
    assert Ordinal(MaxTime.date) == DaysBeforeYear(10000) by {
      YearLength(9999);
    }
  }

  /** `get_datetime` fails on overflow exactly when the instant lies outside years 1..9999. */
  lemma ToUtcDefinedIff(s: Stamp)
    requires ValidStamp(s)
    ensures ToUtc(s).Success? <==> Seconds(MinTime) <= Instant(s) <= Seconds(MaxTime)
  {
    var r := ToUtc(s);
    if r.Success? {
      ValidBetween(r.value);
    } else {
      var t := s.local;
      var total := t.hour * 60 + t.minute - s.offset;
      var date := if total < 0 then PrevDay(t.date) else if total >= 1440 then NextDay(t.date) else t.date;
      var mins := if total < 0 then total + 1440 else if total >= 1440 then total - 1440 else total;
      assert Instant(s) == (Ordinal(date) * 1440 + mins) * 60 + t.second;
      OrdinalInYear(date);
      if date.year < 1 {
        DaysBeforeYearMono(date.year + 1, 1);
      } else {
        DaysBeforeYearMono(10000, date.year);
        YearLength(9999);
      }
    }
  }

  /** A `+0000` offset leaves the wall clock unchanged. */
  lemma ToUtcZeroOffset(t: DateTime)
    requires Valid(t)
    ensures ToUtc(Stamp(t, 0)) == Success(t)
  {
  }

  /** Two zoned times that denote the same instant normalise to the same result, whatever their offsets. */
  lemma ToUtcSameInstant(s1: Stamp, s2: Stamp)
    requires ValidStamp(s1) && ValidStamp(s2) && Instant(s1) == Instant(s2)
    ensures ToUtc(s1) == ToUtc(s2)
  {
    ToUtcDefinedIff(s1);
    ToUtcDefinedIff(s2);
    var r1, r2 := ToUtc(s1), ToUtc(s2);
    if r1.Success? {
      SecondsInjective(r1.value, r2.value);
    }
  }

  // ---------------------------------------------------------------- reading and writing text

  /** The English month abbreviations `%b` accepts, January first. */
  function MonthAbbr(m: int): string
    requires 1 <= m <= 12
  {
    ["Jan", "Feb", "Mar", "Apr", "May", "Jun", "Jul", "Aug", "Sep", "Oct", "Nov", "Dec"][m - 1]
  }

  /** ASCII case folding of a whole string. */
  function Folded(s: string): (f: string)
    ensures |f| == |s| && forall i :: 0 <= i < |s| ==> f[i] == Lower(s[i])
  {
    seq(|s|, i requires 0 <= i < |s| => Lower(s[i]))
  }

  /** `%b`: the number of the month whose abbreviation equals `name` ignoring case. */
  function MonthNumber(name: string): (m: Option<int>)
    ensures m.Some? ==> 1 <= m.value <= 12 && Folded(name) == Folded(MonthAbbr(m.value))
    ensures m.None? ==> forall k :: 1 <= k <= 12 ==> Folded(name) != Folded(MonthAbbr(k))
  {
    FoldedAbbrs();
    MonthFrom(Folded(name), 1)
  }

  function MonthFrom(folded: string, k: int): (m: Option<int>)
    requires 1 <= k <= 13
    ensures m.Some? ==> k <= m.value <= 12 && folded == LowerNames()[m.value - 1]
    ensures m.None? ==> forall j :: k - 1 <= j < 12 ==> folded != LowerNames()[j]
    decreases 13 - k
  {
    if k == 13 then None
    else if folded == LowerNames()[k - 1] then Some(k)
    else MonthFrom(folded, k + 1)
  }

  /**
   * The layout of a `%d/%b/%Y:%H:%M:%S %z` text as the log line pattern captures it: two digits,
   * `/`, three characters, `/`, four digits, `:`, one or more hour digits, `:`, two digits, `:`,
   * two digits, one whitespace character, a sign and four digits. `HourDigits` is the length
   * of the hour field.
   */
  function HourDigits(text: string): int { |text| - 24 }

  predicate StampShape(text: string) {
    var h := HourDigits(text);
    && h >= 1
    && AllDigits(text[0..2]) && text[2] == '/' && text[6] == '/'
    && AllDigits(text[7..11]) && text[11] == ':'
    && AllDigits(text[12..12 + h]) && text[12 + h] == ':'
    && AllDigits(text[13 + h..15 + h]) && text[15 + h] == ':'
    && AllDigits(text[16 + h..18 + h]) && IsSpace(text[18 + h])
    && (text[19 + h] == '+' || text[19 + h] == '-')
    && AllDigits(text[20 + h..22 + h]) && AllDigits(text[22 + h..24 + h])
  }

  /**
   * `strptime(text, "%d/%b/%Y:%H:%M:%S %z")`: the day must be 01..31 and exist in its month,
   * the month a known abbreviation in any case, the year not 0000, the hour one digit or two
   * digits up to 23, minutes and seconds up to 59 (`strptime` lets seconds 60 and 61 through
   * but `datetime` refuses them), and the offset `HHMM` have minutes up to 59 and stay under
   * 24 hours.
   */
  function ParseStamp(text: string): (r: Result<Stamp, DateError>)
    ensures r.Success? ==> ValidStamp(r.value) && StampShape(text)
  {
    if !StampShape(text) then Failure(BadFormat) else Accept(ReadFields(text))
  }

  /** The numbers written in the fields of a text of the right layout. */
  datatype Fields = Fields(day: int, month: Option<int>, year: int, hourDigits: int, hour: int,
                           minute: int, second: int, negative: bool, zoneHours: int, zoneMinutes: int)

  function ReadFields(text: string): (f: Fields)
    requires StampShape(text)
    ensures f.year < 10000
  {
    var h := HourDigits(text);
    DecimalValueBound(text[7..11]);
    assert Pow10(4) == 10000;
    Fields(DecimalValue(text[0..2]), MonthNumber(text[3..6]), DecimalValue(text[7..11]), h,
           DecimalValue(text[12..12 + h]), DecimalValue(text[13 + h..15 + h]),
           DecimalValue(text[16 + h..18 + h]), text[19 + h] == '-',
           DecimalValue(text[20 + h..22 + h]), DecimalValue(text[22 + h..24 + h]))
  }

  /** The range checks `strptime` and the `datetime` and `timezone` constructors apply. */
  function Accept(f: Fields): (r: Result<Stamp, DateError>)
    requires f.year < 10000
    ensures r.Success? ==> ValidStamp(r.value)
  {
    var zone := f.zoneHours * 60 + f.zoneMinutes;
    if && f.month.Some? && 1 <= f.year && 1 <= f.month.value <= 12 && 1 <= f.day
       && f.day <= DaysInMonth(f.year, f.month.value)
       && f.hourDigits <= 2 && 0 <= f.hour <= 23 && 0 <= f.minute <= 59 && 0 <= f.second <= 59
       && 0 <= f.zoneHours <= 23 && 0 <= f.zoneMinutes <= 59
    then
      Success(Stamp(DateTime(Date(f.year, f.month.value, f.day), f.hour, f.minute, f.second),
                    if f.negative then -zone else zone))
    else Failure(BadFormat)
  }

  /** The canonical text of a zoned time: two-digit hour, English month, `+` for a zero offset. */
  function FormatStamp(s: Stamp): string
    requires ValidStamp(s)
  {
    DatePart(s.local.date) + ":" + ClockPart(s.local) + " " + ZonePart(s.offset)
  }

  function DatePart(d: Date): string
    requires 1 <= d.month <= 12 && d.day >= 0 && d.year >= 0
  {
    ZeroPad(d.day, 2) + "/" + MonthAbbr(d.month) + "/" + ZeroPad(d.year, 4)
  }

  function ClockPart(t: DateTime): string
    requires t.hour >= 0 && t.minute >= 0 && t.second >= 0
  {
    ZeroPad(t.hour, 2) + ":" + ZeroPad(t.minute, 2) + ":" + ZeroPad(t.second, 2)
  }

  function ZonePart(offset: int): string {
    var zone := if offset < 0 then -offset else offset;
    (if offset < 0 then "-" else "+") + ZeroPad(zone / 60, 2) + ZeroPad(zone % 60, 2)
  }

  lemma PadWidth(n: nat, w: nat)
    requires w >= 1 && n < Pow10(w)
    ensures |ZeroPad(n, w)| == w
  {
    DecimalLengthBound(n, w);
  }

  lemma DatePartSlices(d: Date)
    requires 1 <= d.month <= 12 && 0 <= d.day < 100 && 0 <= d.year < 10000
    ensures var p := DatePart(d);
      && |p| == 11 && p[0..2] == ZeroPad(d.day, 2) && p[2] == '/' && p[3..6] == MonthAbbr(d.month)
      && p[6] == '/' && p[7..11] == ZeroPad(d.year, 4)
  {
    assert Pow10(2) == 100 && Pow10(4) == 10000;
    PadWidth(d.day, 2);
    PadWidth(d.year, 4);
  }

  lemma ClockPartSlices(t: DateTime)
    requires 0 <= t.hour < 100 && 0 <= t.minute < 100 && 0 <= t.second < 100
    ensures var p := ClockPart(t);
      && |p| == 8 && p[0..2] == ZeroPad(t.hour, 2) && p[2] == ':' && p[3..5] == ZeroPad(t.minute, 2)
      && p[5] == ':' && p[6..8] == ZeroPad(t.second, 2)
  {
    assert Pow10(2) == 100;
    PadWidth(t.hour, 2);
    PadWidth(t.minute, 2);
    PadWidth(t.second, 2);
  }

  lemma ZonePartSlices(offset: int)
    requires -1440 < offset < 1440
    ensures var p := ZonePart(offset);
      var zone := if offset < 0 then -offset else offset;
      && |p| == 5 && p[0] == (if offset < 0 then '-' else '+')
      && p[1..3] == ZeroPad(zone / 60, 2) && p[3..5] == ZeroPad(zone % 60, 2)
  {
    var zone := if offset < 0 then -offset else offset;
    assert Pow10(2) == 100;
    PadWidth(zone / 60, 2);
    PadWidth(zone % 60, 2);
  }

  /** Where each field sits in the canonical text. */
  lemma FormatStampSlices(s: Stamp)
    requires ValidStamp(s)
    ensures var text := FormatStamp(s);
      var t := s.local;
      var zone := if s.offset < 0 then -s.offset else s.offset;
      && |text| == 26 && HourDigits(text) == 2
      && text[0..2] == ZeroPad(t.date.day, 2) && text[2] == '/' && text[3..6] == MonthAbbr(t.date.month)
      && text[6] == '/' && text[7..11] == ZeroPad(t.date.year, 4) && text[11] == ':'
      && text[12..14] == ZeroPad(t.hour, 2) && text[14] == ':' && text[15..17] == ZeroPad(t.minute, 2)
      && text[17] == ':' && text[18..20] == ZeroPad(t.second, 2) && text[20] == ' '
      && text[21] == (if s.offset < 0 then '-' else '+')
      && text[22..24] == ZeroPad(zone / 60, 2) && text[24..26] == ZeroPad(zone % 60, 2)
  {
    var t := s.local;
    var dp, cp, zp := DatePart(t.date), ClockPart(t), ZonePart(s.offset);
    DatePartSlices(t.date);
    ClockPartSlices(t);
    ZonePartSlices(s.offset);
    StampSlices(FormatStamp(s), dp, cp, zp);
  }

  lemma StampSlices(text: string, dp: string, cp: string, zp: string)
    requires |dp| == 11 && |cp| == 8 && |zp| == 5 && text == dp + ":" + cp + " " + zp
    ensures |text| == 26 && text[11] == ':' && text[20] == ' '
    ensures text[0..2] == dp[0..2] && text[2] == dp[2] && text[3..6] == dp[3..6] && text[6] == dp[6]
    ensures text[7..11] == dp[7..11]
    ensures text[12..14] == cp[0..2] && text[14] == cp[2] && text[15..17] == cp[3..5] && text[17] == cp[5]
    ensures text[18..20] == cp[6..8]
    ensures text[21] == zp[0] && text[22..24] == zp[1..3] && text[24..26] == zp[3..5]
  {
    PiecesAt(dp, ":", cp, " ", zp);
    SliceOfSlice(text, 0, 11, dp, 0, 2);
    SliceOfSlice(text, 0, 11, dp, 3, 6);
    SliceOfSlice(text, 0, 11, dp, 7, 11);
    SliceOfSlice(text, 12, 20, cp, 0, 2);
    SliceOfSlice(text, 12, 20, cp, 3, 5);
    SliceOfSlice(text, 12, 20, cp, 6, 8);
    SliceOfSlice(text, 21, 26, zp, 1, 3);
    SliceOfSlice(text, 21, 26, zp, 3, 5);
  }

  /** Reading back the canonical text of a valid zoned time gives the same zoned time. */
  lemma ParseFormatStamp(s: Stamp)
    requires ValidStamp(s)
    ensures ParseStamp(FormatStamp(s)) == Success(s)
  {
    FormatStampFields(s);
    AcceptStamp(s);
  }

  /** The range checks accept the fields of a valid zoned time and rebuild it. */
  lemma AcceptStamp(s: Stamp)
    requires ValidStamp(s)
    ensures var t := s.local;
      var zone := if s.offset < 0 then -s.offset else s.offset;
      Accept(Fields(t.date.day, Some(t.date.month), t.date.year, 2, t.hour, t.minute, t.second,
                    s.offset < 0, zone / 60, zone % 60)) == Success(s)
  {
    var zone := if s.offset < 0 then -s.offset else s.offset;
    assert zone == zone / 60 * 60 + zone % 60;
  }

  lemma FormatStampShape(s: Stamp)
    requires ValidStamp(s)
    ensures StampShape(FormatStamp(s))
  {
    FormatStampSlices(s);
  }

  lemma FormatStampFields(s: Stamp)
    requires ValidStamp(s)
    ensures StampShape(FormatStamp(s))
    ensures var t := s.local;
      var zone := if s.offset < 0 then -s.offset else s.offset;
      ReadFields(FormatStamp(s))
        == Fields(t.date.day, Some(t.date.month), t.date.year, 2, t.hour, t.minute, t.second,
                  s.offset < 0, zone / 60, zone % 60)
  {
    FormatStampShape(s);
    FormatStampSlices(s);
    MonthRoundTrip(s.local.date.month);
  }

  /** Each abbreviation is read as its own month. */
  lemma MonthRoundTrip(m: int)
    requires 1 <= m <= 12
    ensures MonthNumber(MonthAbbr(m)) == Some(m)
  {
    FoldedAbbrs();
    MonthFromFinds(m, 1);
  }

  lemma {:induction false} MonthFromFinds(m: int, k: int)
    requires 1 <= k <= m <= 12
    ensures MonthFrom(LowerNames()[m - 1], k) == Some(m)
    decreases m - k
  {
    if k < m {
      LowerNamesDistinct(k, m);
      MonthFromFinds(m, k + 1);
    }
  }

  lemma LowerNamesDistinct(i: int, j: int)
    requires 1 <= i < j <= 12
    ensures LowerNames()[i - 1] != LowerNames()[j - 1]
  {
    var a, b := LowerNames()[i - 1], LowerNames()[j - 1];
    assert a[0] != b[0] || a[1] != b[1] || a[2] != b[2];
  }

  /** The abbreviations folded to lower case: twelve distinct texts. */
  lemma FoldedAbbrs()
    ensures forall m :: 1 <= m <= 12 ==> Folded(MonthAbbr(m)) == LowerNames()[m - 1]
  {
    forall m | 1 <= m <= 12 ensures Folded(MonthAbbr(m)) == LowerNames()[m - 1] {
      var f := Folded(MonthAbbr(m));
      assert f == [f[0], f[1], f[2]];
    }
  }

  function LowerNames(): seq<string> {
    ["jan", "feb", "mar", "apr", "may", "jun", "jul", "aug", "sep", "oct", "nov", "dec"]
  }

  /** `str(datetime)`: `YYYY-MM-DD HH:MM:SS`, zero-padded, the text that goes into a row. */
  function FormatDateTime(t: DateTime): (r: string)
    requires Valid(t)
    ensures |r| == 19 && r[4] == '-' && r[7] == '-' && r[10] == ' ' && r[13] == ':' && r[16] == ':'
    ensures AllDigits(r[0..4]) && DecimalValue(r[0..4]) == t.date.year
    ensures AllDigits(r[5..7]) && DecimalValue(r[5..7]) == t.date.month
    ensures AllDigits(r[8..10]) && DecimalValue(r[8..10]) == t.date.day
    ensures AllDigits(r[11..13]) && DecimalValue(r[11..13]) == t.hour
    ensures AllDigits(r[14..16]) && DecimalValue(r[14..16]) == t.minute
    ensures AllDigits(r[17..19]) && DecimalValue(r[17..19]) == t.second
  {
    assert Pow10(2) == 100 && Pow10(4) == 10000;
    PadWidth(t.date.year, 4);
    PadWidth(t.date.month, 2);
    PadWidth(t.date.day, 2);
    PadWidth(t.hour, 2);
    PadWidth(t.minute, 2);
    PadWidth(t.second, 2);
    var r := ZeroPad(t.date.year, 4) + "-" + ZeroPad(t.date.month, 2) + "-" + ZeroPad(t.date.day, 2)
      + " " + ZeroPad(t.hour, 2) + ":" + ZeroPad(t.minute, 2) + ":" + ZeroPad(t.second, 2);
    DateTimeSlices(r, ZeroPad(t.date.year, 4), ZeroPad(t.date.month, 2), ZeroPad(t.date.day, 2),
                   ZeroPad(t.hour, 2), ZeroPad(t.minute, 2), ZeroPad(t.second, 2));
    r
  }

  lemma DateTimeSlices(r: string, y: string, mo: string, d: string, h: string, mi: string, se: string)
    requires |y| == 4 && |mo| == 2 && |d| == 2 && |h| == 2 && |mi| == 2 && |se| == 2
    requires r == y + "-" + mo + "-" + d + " " + h + ":" + mi + ":" + se
    ensures |r| == 19 && r[4] == '-' && r[7] == '-' && r[10] == ' ' && r[13] == ':' && r[16] == ':'
    ensures r[0..4] == y && r[5..7] == mo && r[8..10] == d && r[11..13] == h && r[14..16] == mi && r[17..19] == se
  {
    var date := y + "-" + mo + "-" + d;
    PiecesAt(y, "-", mo, "-", d);
    PiecesAt(date, " ", h, ":", mi + ":" + se);
    assert r == date + " " + h + ":" + (mi + ":" + se);
    PiecesAt(mi, ":", se, "", "");
    SliceOfSlice(r, 0, 10, date, 0, 4);
    SliceOfSlice(r, 0, 10, date, 5, 7);
    SliceOfSlice(r, 0, 10, date, 8, 10);
    SliceOfSlice(r, 14, 19, mi + ":" + se, 0, 2);
    SliceOfSlice(r, 14, 19, mi + ":" + se, 3, 5);
    assert r[4] == date[4] && r[7] == date[7];
  }

  /** `get_datetime`: read the zoned time, then move it to UTC and drop the zone. */
  function GetDatetime(text: string): (r: Result<DateTime, DateError>)
    ensures r.Success? <==> ParseStamp(text).Success? && ToUtc(ParseStamp(text).value).Success?
    ensures r.Success? ==> Valid(r.value) && Seconds(r.value) == Instant(ParseStamp(text).value)
  {
    match ParseStamp(text)
    case Failure(e) => Failure(e)
    case Success(s) => ToUtc(s)
  }

  /** A time written at UTC comes back unchanged. */
  lemma ExampleUtc()
    ensures GetDatetime("10/Oct/2023:13:55:36 +0000") == Success(DateTime(Date(2023, 10, 10), 13, 55, 36))
  {
    var utc := Stamp(DateTime(Date(2023, 10, 10), 13, 55, 36), 0);
    var text := FormatStamp(utc);
    PartExamples();
    assert text == "10/Oct/2023" + ":" + "13:55:36" + " " + "+0000";
    LiteralUtc();
    GetDatetimeOfFormat(utc);
    ToUtcZeroOffset(utc.local);
  }

  lemma LiteralUtc()
    ensures "10/Oct/2023" + ":" + "13:55:36" + " " + "+0000" == "10/Oct/2023:13:55:36 +0000"
  {
  }

  /** The same instant written five hours west of UTC gives the same UTC wall clock. */
  lemma ExampleWest()
    ensures GetDatetime("10/Oct/2023:08:55:36 -0500") == Success(DateTime(Date(2023, 10, 10), 13, 55, 36))
  {
    var west := Stamp(DateTime(Date(2023, 10, 10), 8, 55, 36), -300);
    var text := FormatStamp(west);
    PartExamples();
    assert text == "10/Oct/2023" + ":" + "08:55:36" + " " + "-0500";
    LiteralWest();
    GetDatetimeOfFormat(west);
    ToUtcWest();
  }

  lemma ToUtcWest()
    ensures ToUtc(Stamp(DateTime(Date(2023, 10, 10), 8, 55, 36), -300)) == Success(DateTime(Date(2023, 10, 10), 13, 55, 36))
  {
    var west := Stamp(DateTime(Date(2023, 10, 10), 8, 55, 36), -300);
    assert ValidStamp(west);
    assert 835 / 60 == 13 && 835 % 60 == 55;
  }

  lemma LiteralWest()
    ensures "10/Oct/2023" + ":" + "08:55:36" + " " + "-0500" == "10/Oct/2023:08:55:36 -0500"
  {
  }

  /**
   * Day, month and year roll over: an hour east of UTC just after midnight on 1 March lands on
   * 29 February in a leap year and on 28 February otherwise; an hour west just before midnight
   * on 31 December lands in the next year.
   */
  lemma ToUtcRollover()
    ensures ToUtc(Stamp(DateTime(Date(2024, 3, 1), 0, 30, 0), 60)) == Success(DateTime(Date(2024, 2, 29), 23, 30, 0))
    ensures ToUtc(Stamp(DateTime(Date(2023, 3, 1), 0, 30, 0), 60)) == Success(DateTime(Date(2023, 2, 28), 23, 30, 0))
    ensures ToUtc(Stamp(DateTime(Date(2023, 12, 31), 23, 30, 0), -60)) == Success(DateTime(Date(2024, 1, 1), 0, 30, 0))
  {
    assert IsLeapYear(2024) && !IsLeapYear(2023);
    assert 1410 / 60 == 23 && 1410 % 60 == 30;
    assert 30 / 60 == 0 && 30 % 60 == 30;
  }

  lemma GetDatetimeOfFormat(s: Stamp)
    requires ValidStamp(s)
    ensures GetDatetime(FormatStamp(s)) == ToUtc(s)
  {
    ParseFormatStamp(s);
  }

  lemma PartExamples()
    ensures DatePart(Date(2023, 10, 10)) == "10/Oct/2023"
    ensures ClockPart(DateTime(Date(2023, 10, 10), 13, 55, 36)) == "13:55:36"
    ensures ClockPart(DateTime(Date(2023, 10, 10), 8, 55, 36)) == "08:55:36"
    ensures ZonePart(0) == "+0000" && ZonePart(-300) == "-0500"
  {
    PaddedExamples();
    assert MonthAbbr(10) == "Oct";
  }

  lemma PaddedExamples()
    ensures ZeroPad(0, 2) == "00" && ZeroPad(5, 2) == "05" && ZeroPad(8, 2) == "08"
    ensures ZeroPad(10, 2) == "10" && ZeroPad(13, 2) == "13" && ZeroPad(36, 2) == "36"
    ensures ZeroPad(55, 2) == "55" && ZeroPad(2023, 4) == "2023"
  {
    PadOneDigit(0);
    PadOneDigit(5);
    PadOneDigit(8);
    PadTwoDigits(10);
    PadTwoDigits(13);
    PadTwoDigits(36);
    PadTwoDigits(55);
    assert Decimal(2023) == Decimal(202) + "3" && Decimal(202) == Decimal(20) + "2";
    assert Decimal(20) == Decimal(2) + "0";
  }

  lemma PadOneDigit(n: nat)
    requires n < 10
    ensures ZeroPad(n, 2) == ['0', DigitChar(n)]
  {
    assert Decimal(n) == [DigitChar(n)];
    assert ZeroPrefix(1, [DigitChar(n)]) == "0" + ZeroPrefix(0, [DigitChar(n)]);
  }

  lemma PadTwoDigits(n: nat)
    requires 10 <= n < 100
    ensures ZeroPad(n, 2) == [DigitChar(n / 10), DigitChar(n % 10)]
  {
    assert Decimal(n) == Decimal(n / 10) + [DigitChar(n % 10)];
  }
}
