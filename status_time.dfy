/**
 * The timestamps of the OpenVPN status log: `yyyy-MM-dd HH:mm:ss` read as UTC,
 * shown as `dd.MM.yyyy HH:mm:ss` in Moscow time, and the time since a
 * connection started as days, hours and minutes.
 *
 * Moscow is taken to be UTC+3 at every instant (a fixed offset, not the zone
 * database), and the current time is an input in whole seconds since the Unix
 * epoch.
 */
module StatusTime {
  import opened Wrappers
  import opened JavaText

  /** A LocalDateTime to the second. */
  datatype DateTime = DateTime(year: int, month: int, day: int, hour: int, minute: int, second: int)

  // ---------------------------------------------------------------- the proleptic Gregorian calendar

  predicate IsLeapYear(y: int) {
    y % 4 == 0 && (y % 100 != 0 || y % 400 == 0)
  }

  function MonthLength(y: int, m: int): (r: int)
    requires 1 <= m <= 12
    ensures 28 <= r <= 31
  {
    if m == 2 then (if IsLeapYear(y) then 29 else 28)
    else if m == 4 || m == 6 || m == 9 || m == 11 then 30
    else 31
  }

  function YearLength(y: int): int {
    if IsLeapYear(y) then 366 else 365
  }

  /** A date of year 1 or later and a time of day. */
  predicate Valid(t: DateTime) {
    1 <= t.year && 1 <= t.month <= 12 && 1 <= t.day <= MonthLength(t.year, t.month)
    && 0 <= t.hour < 24 && 0 <= t.minute < 60 && 0 <= t.second < 60
  }

  /** Days from 0001-01-01 to the first of January of `y`. */
  function DaysBeforeYear(y: int): int
    requires y >= 1
  {
    var p := y - 1;
    365 * p + p / 4 - p / 100 + p / 400
  }

  /** Days from the first of January to the first of month `m`. */
  function DaysBeforeMonth(y: int, m: int): int
    requires 1 <= m <= 12
  {
    if m == 1 then 0 else DaysBeforeMonth(y, m - 1) + MonthLength(y, m - 1)
  }

  /** Days from 0001-01-01 to the date of `t`. */
  function DayNumber(t: DateTime): int
    requires t.year >= 1 && 1 <= t.month <= 12
  {
    DaysBeforeYear(t.year) + DaysBeforeMonth(t.year, t.month) + t.day - 1
  }

  /** The day number of 1970-01-01. */
  const UnixEpochDay: int := 719162

  lemma UnixEpochDayIsNewYear1970()
    ensures DayNumber(DateTime(1970, 1, 1, 0, 0, 0)) == UnixEpochDay
  {
  }

  /** The instant of `t` read as UTC, in seconds since the Unix epoch. */
  function EpochSeconds(t: DateTime): int
    requires t.year >= 1 && 1 <= t.month <= 12
  {
    (DayNumber(t) - UnixEpochDay) * 86400 + t.hour * 3600 + t.minute * 60 + t.second
  }

  /** A year's twelve months make up the year. */
  lemma DaysBeforeDecember(y: int)
    ensures DaysBeforeMonth(y, 12) + 31 == YearLength(y)
  {
    var feb := MonthLength(y, 2);
    assert DaysBeforeMonth(y, 2) == 31;
    assert DaysBeforeMonth(y, 3) == 31 + feb;
    assert DaysBeforeMonth(y, 4) == 62 + feb;
    assert DaysBeforeMonth(y, 5) == 92 + feb;
    assert DaysBeforeMonth(y, 6) == 123 + feb;
    assert DaysBeforeMonth(y, 7) == 153 + feb;
    assert DaysBeforeMonth(y, 8) == 184 + feb;
    assert DaysBeforeMonth(y, 9) == 215 + feb;
    assert DaysBeforeMonth(y, 10) == 245 + feb;
    assert DaysBeforeMonth(y, 11) == 276 + feb;
    assert DaysBeforeMonth(y, 12) == 306 + feb;
  }

  /** Consecutive years are a year's length apart. */
  lemma DaysBeforeNextYear(y: int)
    requires y >= 1
    ensures DaysBeforeYear(y + 1) == DaysBeforeYear(y) + YearLength(y)
  {
    var p := y - 1;
    assert (p + 1) / 4 == p / 4 + (if y % 4 == 0 then 1 else 0);
    assert (p + 1) / 100 == p / 100 + (if y % 100 == 0 then 1 else 0);
    assert (p + 1) / 400 == p / 400 + (if y % 400 == 0 then 1 else 0);
  }

  /** The same time of day on the following date. */
  function NextDate(t: DateTime): DateTime
    requires 1 <= t.month <= 12
  {
    if t.day < MonthLength(t.year, t.month) then t.(day := t.day + 1)
    else if t.month < 12 then t.(month := t.month + 1, day := 1)
    else t.(year := t.year + 1, month := 1, day := 1)
  }

  lemma {:induction false} NextDateIsNextDay(t: DateTime)
    requires Valid(t)
    ensures Valid(NextDate(t))
    ensures DayNumber(NextDate(t)) == DayNumber(t) + 1
  {
    if t.day == MonthLength(t.year, t.month) && t.month == 12 {
      DaysBeforeDecember(t.year);
      DaysBeforeNextYear(t.year);
    }
  }

  /** LocalDateTime.plusHours for 0..23 hours: the hour moves on, and past midnight the date does too. */
  function PlusHours(t: DateTime, h: int): DateTime
    requires 1 <= t.month <= 12 && 0 <= h < 24
  {
    if t.hour + h < 24 then t.(hour := t.hour + h)
    else NextDate(t).(hour := t.hour + h - 24)
  }

  /** The offset the model gives Europe/Moscow. */
  const MoscowOffsetHours: int := 3

  /** The wall-clock time in Moscow at the instant `t` names in UTC. */
  function ToMoscow(t: DateTime): DateTime
    requires 1 <= t.month <= 12
  {
    PlusHours(t, MoscowOffsetHours)
  }

  /** Moscow's wall clock is a valid time three hours ahead: the same instant in the other zone. */
  lemma ToMoscowIsSameInstant(t: DateTime)
    requires Valid(t)
    ensures Valid(ToMoscow(t))
    ensures EpochSeconds(ToMoscow(t)) == EpochSeconds(t) + MoscowOffsetHours * 3600
  {
    NextDateIsNextDay(t);
  }

  // ---------------------------------------------------------------- digits

  function DigitValue(c: char): int {
    c as int - '0' as int
  }

  /** Two decimal digits at `i`. */
  function TwoDigits(s: string, i: nat): int
    requires i + 2 <= |s|
  {
    10 * DigitValue(s[i]) + DigitValue(s[i + 1])
  }

  /** Four decimal digits at `i`. */
  function FourDigits(s: string, i: nat): int
    requires i + 4 <= |s|
  {
    100 * TwoDigits(s, i) + TwoDigits(s, i + 2)
  }

  /** `%02d` of 0..99. */
  function Pad2(n: int): (r: string)
    requires 0 <= n < 100
    ensures |r| == 2 && IsDigit(r[0]) && IsDigit(r[1])
    ensures TwoDigits(r, 0) == n
  {
    [DigitChar(n / 10), DigitChar(n % 10)]
  }

  /** Four digits, zero-padded. */
  function Pad4(n: int): (r: string)
    requires 0 <= n < 10000
    ensures |r| == 4 && forall i :: 0 <= i < 4 ==> IsDigit(r[i])
    ensures FourDigits(r, 0) == n
  {
    Pad2(n / 100) + Pad2(n % 100)
  }

  // ---------------------------------------------------------------- the two formats

  /** The positions of the separators in `yyyy-MM-dd HH:mm:ss`. */
  predicate IsSeparatorPosition(i: int) {
    i == 4 || i == 7 || i == 10 || i == 13 || i == 16
  }

  /** Nineteen characters: digits, with `-`, `-`, space, `:` and `:` in their places. */
  predicate HasInputShape(s: string) {
    |s| == 19 && s[4] == '-' && s[7] == '-' && s[10] == ' ' && s[13] == ':' && s[16] == ':'
    && forall i :: 0 <= i < 19 && !IsSeparatorPosition(i) ==> IsDigit(s[i])
  }

  /**
   * The formatter's default (smart) resolution of the six fields: each is
   * range-checked, a day past the end of its month becomes the month's last
   * day, and `24:00:00` is midnight at the start of the next day.
   */
  function Resolve(y: int, mo: int, d: int, h: int, mi: int, se: int): (r: Option<DateTime>)
    ensures r.Some? ==> Valid(r.value)
  {
    if y < 1 || mo < 1 || mo > 12 || d < 1 || d > 31 || mi < 0 || mi > 59 then None
    else
      var date := DateTime(y, mo, if d <= MonthLength(y, mo) then d else MonthLength(y, mo), 0, 0, 0);
      if h == 24 && mi == 0 && se == 0 then
        NextDateIsNextDay(date);
        Some(NextDate(date))
      else if h < 0 || h > 23 || se < 0 || se > 59 then None
      else Some(date.(hour := h, minute := mi, second := se))
  }

  /** LocalDateTime.parse with the pattern `yyyy-MM-dd HH:mm:ss`. */
  function ParseDateTime(s: string): (r: Option<DateTime>)
    ensures r.Some? ==> Valid(r.value) && |s| == 19
  {
    if !HasInputShape(s) then None
    else Resolve(FourDigits(s, 0), TwoDigits(s, 5), TwoDigits(s, 8), TwoDigits(s, 11), TwoDigits(s, 14), TwoDigits(s, 17))
  }

  /** Six field values in the `yyyy-MM-dd HH:mm:ss` layout, whether or not they name a valid time. */
  function FieldsText(y: int, mo: int, d: int, h: int, mi: int, se: int): string
    requires 0 <= y < 10000 && 0 <= mo < 100 && 0 <= d < 100 && 0 <= h < 100 && 0 <= mi < 100 && 0 <= se < 100
  {
    Pad4(y) + "-" + Pad2(mo) + "-" + Pad2(d) + " " + Pad2(h) + ":" + Pad2(mi) + ":" + Pad2(se)
  }

  /** Text in the layout is read back field by field and then resolved. */
  lemma ParseFieldsText(y: int, mo: int, d: int, h: int, mi: int, se: int)
    requires 0 <= y < 10000 && 0 <= mo < 100 && 0 <= d < 100 && 0 <= h < 100 && 0 <= mi < 100 && 0 <= se < 100
    ensures ParseDateTime(FieldsText(y, mo, d, h, mi, se)) == Resolve(y, mo, d, h, mi, se)
  {
    var s := FieldsText(y, mo, d, h, mi, se);
    assert s[0..4] == Pad4(y);
    assert s[5..7] == Pad2(mo);
    assert s[8..10] == Pad2(d);
    assert s[11..13] == Pad2(h);
    assert s[14..16] == Pad2(mi);
    assert s[17..19] == Pad2(se);
    assert FourDigits(s, 0) == FourDigits(Pad4(y), 0);
    assert TwoDigits(s, 5) == TwoDigits(Pad2(mo), 0);
    assert TwoDigits(s, 8) == TwoDigits(Pad2(d), 0);
    assert TwoDigits(s, 11) == TwoDigits(Pad2(h), 0);
    assert TwoDigits(s, 14) == TwoDigits(Pad2(mi), 0);
    assert TwoDigits(s, 17) == TwoDigits(Pad2(se), 0);
  }

  /** `yyyy-MM-dd HH:mm:ss` of a time in years 1..9999: the status log's own format. */
  function InputText(t: DateTime): string
    requires Valid(t) && t.year <= 9999
  {
    FieldsText(t.year, t.month, t.day, t.hour, t.minute, t.second)
  }

  /** The parser reads back every valid time the log's format can print. */
  lemma ParseInputText(t: DateTime)
    requires Valid(t) && t.year <= 9999
    ensures ParseDateTime(InputText(t)) == Some(t)
  {
    ParseFieldsText(t.year, t.month, t.day, t.hour, t.minute, t.second);
  }

  /** A day past the end of its month is read as the month's last day. */
  lemma DayPastMonthEndIsClamped()
    ensures ParseDateTime(FieldsText(2025, 2, 30, 10, 0, 0)) == Some(DateTime(2025, 2, 28, 10, 0, 0))
    ensures ParseDateTime(FieldsText(2024, 2, 31, 10, 0, 0)) == Some(DateTime(2024, 2, 29, 10, 0, 0))
    ensures ParseDateTime(FieldsText(2025, 2, 32, 10, 0, 0)).None?
  {
    ParseFieldsText(2025, 2, 30, 10, 0, 0);
    ParseFieldsText(2024, 2, 31, 10, 0, 0);
    ParseFieldsText(2025, 2, 32, 10, 0, 0);
  }

  /** `24:00:00` is read as the midnight that starts the next day, even across a year. */
  lemma EndOfDayIsNextMidnight()
    ensures ParseDateTime(FieldsText(2025, 12, 31, 24, 0, 0)) == Some(DateTime(2026, 1, 1, 0, 0, 0))
    ensures ParseDateTime(FieldsText(2025, 12, 31, 24, 0, 1)).None?
  {
    ParseFieldsText(2025, 12, 31, 24, 0, 0);
    ParseFieldsText(2025, 12, 31, 24, 0, 1);
  }

  /** `yyyy` when printing: four digits, and a `+` with all the digits past 9999. */
  function YearText(y: int): string
    requires y >= 1
  {
    if y <= 9999 then Pad4(y) else "+" + NatToDecimal(y)
  }

  /** `dd.MM.yyyy HH:mm:ss`. */
  function OutputText(t: DateTime): string
    requires Valid(t)
  {
    Pad2(t.day) + "." + Pad2(t.month) + "." + YearText(t.year) + " " + Pad2(t.hour) + ":" + Pad2(t.minute) + ":" + Pad2(t.second)
  }

  // ---------------------------------------------------------------- the two conversions

  /**
   * convertToMoscowTime: a blank or unparsable text comes back unchanged;
   * otherwise its trimmed form, read as UTC, is shown as Moscow time.
   */
  function ConvertToMoscowTime(s: string): string {
    if IsBlank(s) then s
    else match ParseDateTime(Trim(s))
      case None => s
      case Some(t) =>
        ToMoscowIsSameInstant(t);
        OutputText(ToMoscow(t))
  }

  /**
   * The conversion shows the instant written in the log as Moscow's wall clock:
   * the same instant, three hours ahead, unless the text does not parse.
   */
  lemma ConvertShowsSameInstant(s: string)
    ensures ParseDateTime(Trim(s)).None? ==> ConvertToMoscowTime(s) == s
    ensures ParseDateTime(Trim(s)).Some? ==>
      var t := ParseDateTime(Trim(s)).value;
      Valid(ToMoscow(t)) && ConvertToMoscowTime(s) == OutputText(ToMoscow(t))
      && EpochSeconds(ToMoscow(t)) == EpochSeconds(t) + MoscowOffsetHours * 3600
  {
    if ParseDateTime(Trim(s)).Some? {
      var t := ParseDateTime(Trim(s)).value;
      ToMoscowIsSameInstant(t);
    }
  }

  /** Java's `/` on longs: the quotient truncated toward zero. */
  function JavaDiv(a: int, b: int): int
    requires b > 0
  {
    if a >= 0 then a / b else -((-a) / b)
  }

  /** Java's `%` on longs: the remainder takes the sign of the dividend. */
  function JavaRem(a: int, b: int): int
    requires b > 0
  {
    a - b * JavaDiv(a, b)
  }

  /** Duration.toDays, toHours() % 24 and toMinutes() % 60 of a duration in whole seconds. */
  datatype DurationParts = DurationParts(days: int, hours: int, minutes: int)

  function Parts(seconds: int): DurationParts {
    DurationParts(JavaDiv(seconds, 86400), JavaRem(JavaDiv(seconds, 3600), 24), JavaRem(JavaDiv(seconds, 60), 60))
  }

  /** For a non-negative dividend Java's division and remainder are the Euclidean ones. */
  lemma JavaDivRemOfNat(a: int, b: int)
    requires a >= 0 && b > 0
    ensures JavaDiv(a, b) == a / b && JavaRem(a, b) == a % b
  {
    assert a == b * (a / b) + a % b;
  }

  /** Java's division and remainder change sign with the dividend. */
  lemma JavaDivRemOdd(a: int, b: int)
    requires a >= 0 && b > 0
    ensures JavaDiv(-a, b) == -JavaDiv(a, b) && JavaRem(-a, b) == -JavaRem(a, b)
  {
    if a == 0 {
      assert -a == 0;
    } else {
      assert JavaDiv(-a, b) == -(a / b);
    }
  }

  /** Whole hours are whole days and the hours left over; whole minutes likewise. */
  lemma NestedUnits(sec: int)
    requires sec >= 0
    ensures (sec / 3600) / 24 == sec / 86400
    ensures (sec / 60) / 60 == sec / 3600
  {
  }

  /** A non-negative duration is whole days, hours below 24, minutes below 60 and leftover seconds. */
  lemma PartsOfNat(sec: int)
    requires sec >= 0
    ensures var q := Parts(sec);
      0 <= q.hours < 24 && 0 <= q.minutes < 60 && 0 <= q.days
      && q.days * 86400 + q.hours * 3600 + q.minutes * 60 + sec % 60 == sec
  {
    var h, m := sec / 3600, sec / 60;
    JavaDivRemOfNat(sec, 86400);
    JavaDivRemOfNat(sec, 3600);
    JavaDivRemOfNat(sec, 60);
    JavaDivRemOfNat(h, 24);
    JavaDivRemOfNat(m, 60);
    NestedUnits(sec);
    assert h == 24 * (h / 24) + h % 24;
    assert m == 60 * (m / 60) + m % 60;
    assert sec == 60 * m + sec % 60;
  }

  /** A negative duration has the parts of its absolute value, negated. */
  lemma PartsOfNegative(sec: int)
    requires sec > 0
    ensures Parts(-sec) == DurationParts(-Parts(sec).days, -Parts(sec).hours, -Parts(sec).minutes)
  {
    JavaDivRemOdd(sec, 86400);
    JavaDivRemOdd(sec, 3600);
    JavaDivRemOdd(sec, 60);
    JavaDivRemOfNat(sec, 3600);
    JavaDivRemOfNat(sec, 60);
    JavaDivRemOdd(JavaDiv(sec, 3600), 24);
    JavaDivRemOdd(JavaDiv(sec, 60), 60);
  }

  /**
   * A non-negative duration is whole days, hours below 24, minutes below 60 and
   * leftover seconds; a negative one has the same parts negated.
   */
  lemma PartsDecompose(seconds: int)
    ensures var q := Parts(if seconds >= 0 then seconds else -seconds);
      var sec := if seconds >= 0 then seconds else -seconds;
      0 <= q.hours < 24 && 0 <= q.minutes < 60 && 0 <= q.days
      && q.days * 86400 + q.hours * 3600 + q.minutes * 60 + sec % 60 == sec
    ensures seconds < 0 ==> Parts(seconds) == DurationParts(-Parts(-seconds).days, -Parts(-seconds).hours, -Parts(-seconds).minutes)
  {
    if seconds >= 0 {
      PartsOfNat(seconds);
    } else {
      PartsOfNat(-seconds);
      PartsOfNegative(-seconds);
    }
  }

  /** `"%d дней, %02d часов %02d минут"`. */
  function DurationText(q: DurationParts): string {
    IntToDecimal(q.days) + " дней, " + ZeroPad2(q.hours) + " часов " + ZeroPad2(q.minutes) + " минут"
  }

  /**
   * The seconds from the start written in `s` to `now`, or none for a blank or
   * unparsable start.
   */
  function Elapsed(s: string, now: int): Option<int> {
    if IsBlank(s) then None
    else match ParseDateTime(Trim(s))
      case None => None
      case Some(t) => Some(now - EpochSeconds(t))
  }

  /**
   * calculateDuration with the current time `now` (whole seconds since the
   * epoch): `-` for a blank or unparsable start, else the time elapsed since it.
   */
  function CalculateDuration(s: string, now: int): string {
    match Elapsed(s, now)
    case None => "-"
    case Some(seconds) => DurationText(Parts(seconds))
  }

  /** A text that parses is not blank. */
  lemma ParsedIsNotBlank(s: string)
    requires ParseDateTime(Trim(s)).Some?
    ensures !IsBlank(s)
  {
  }

  /** For a text that parses, the time elapsed is the time from its instant to `now`. */
  lemma ElapsedSinceInstant(s: string, now: int, t: DateTime)
    requires ParseDateTime(Trim(s)) == Some(t)
    ensures Elapsed(s, now) == Some(now - EpochSeconds(t))
  {
    ParsedIsNotBlank(s);
  }

  /** A text that does not parse has no elapsed time, so its duration is `-`. */
  lemma UnparsableStartIsDash(s: string, now: int)
    requires ParseDateTime(Trim(s)).None?
    ensures Elapsed(s, now).None? && CalculateDuration(s, now) == "-"
  {
  }

  /**
   * The duration measures the instant, not the wall clock: the time elapsed is
   * the same whether the start is taken as UTC or as its Moscow wall-clock time
   * less the offset.
   */
  lemma DurationIsZoneIndependent(s: string, now: int, t: DateTime)
    requires ParseDateTime(Trim(s)) == Some(t)
    ensures Valid(ToMoscow(t))
    ensures Elapsed(s, now) == Some(now - (EpochSeconds(ToMoscow(t)) - MoscowOffsetHours * 3600))
  {
    ToMoscowIsSameInstant(t);
    ElapsedSinceInstant(s, now, t);
  }

  /** 2025-01-01 00:00:00 UTC is 1735689600 seconds after the epoch. */
  lemma NewYear2025()
    ensures EpochSeconds(DateTime(2025, 1, 1, 0, 0, 0)) == 1735689600
  {
  }
}
