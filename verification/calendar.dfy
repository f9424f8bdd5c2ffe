/** Proleptic Gregorian dates and date-times at one-second resolution, as the
    `chrono` crate's `NaiveDate` / `NaiveDateTime` represent them. */
module Calendar {
  import opened Common

  /** chrono's supported year range. */
  const MIN_YEAR: int := -262144
  const MAX_YEAR: int := 262143

  const SECONDS_PER_DAY: nat := 86400

  datatype Date = Date(year: int, month: int, day: int)

  /** A date plus the second of that day. */
  datatype DateTime = DateTime(date: Date, second: int)

  predicate IsLeap(y: int) {
    y % 4 == 0 && (y % 100 != 0 || y % 400 == 0)
  }

  function DaysInMonth(y: int, m: int): (n: int)
    requires 1 <= m <= 12
    ensures 28 <= n <= 31
  {
    if m == 2 then (if IsLeap(y) then 29 else 28)
    else if m == 4 || m == 6 || m == 9 || m == 11 then 30
    else 31
  }

  predicate ValidDate(d: Date) {
    && MIN_YEAR <= d.year <= MAX_YEAR
    && 1 <= d.month <= 12
    && 1 <= d.day <= DaysInMonth(d.year, d.month)
  }

  predicate ValidDateTime(t: DateTime) {
    ValidDate(t.date) && 0 <= t.second < SECONDS_PER_DAY
  }

  /** `NaiveDate::from_ymd_opt`. */
  function FromYmd(y: int, m: int, d: int): (r: Option<Date>)
    ensures r.Some? <==> ValidDate(Date(y, m, d))
    ensures r.Some? ==> r.value == Date(y, m, d)
  {
    if ValidDate(Date(y, m, d)) then Some(Date(y, m, d)) else None
  }

  /** `date.and_hms_opt(h, m, s)` (and the time part of `with_ymd_and_hms`): a
      time of day exists only for h < 24, m < 60, s < 60. */
  function AndHms(d: Date, h: nat, m: nat, s: nat): (r: Option<DateTime>)
    ensures r.Some? <==> h < 24 && m < 60 && s < 60
    ensures r.Some? ==> r.value.date == d && r.value.second == 3600 * h + 60 * m + s
    ensures r.Some? && ValidDate(d) ==> ValidDateTime(r.value)
  {
    if h < 24 && m < 60 && s < 60 then Some(DateTime(d, 3600 * h + 60 * m + s)) else None
  }

  /** Midnight of year 0, January 1st: `with_ymd_and_hms(0, 1, 1, 0, 0, 0)`. */
  const YEAR_ZERO: DateTime := DateTime(Date(0, 1, 1), 0)

  /** `NaiveDateTime::default()`: the Unix epoch. */
  const UNIX_EPOCH: DateTime := DateTime(Date(1970, 1, 1), 0)

  /** Days in the years before `y`, counted from year 0 (negative for `y < 0`). */
  function DaysBeforeYear(y: int): int {
    365 * y + (y + 3) / 4 - (y + 99) / 100 + (y + 399) / 400
  }

  function DaysBeforeMonth(y: int, m: int): int
    requires 1 <= m <= 12
    decreases m
  {
    if m == 1 then 0 else DaysBeforeMonth(y, m - 1) + DaysInMonth(y, m - 1)
  }

  /** Day number of a date relative to 1970-01-01. */
  function DayNumber(d: Date): int
    requires 1 <= d.month <= 12
  {
    DaysBeforeYear(d.year) + DaysBeforeMonth(d.year, d.month) + d.day - 1 - DaysBeforeYear(1970)
  }

  /** `timestamp()`: seconds since 1970-01-01T00:00:00. */
  function Timestamp(t: DateTime): int
    requires 1 <= t.date.month <= 12
  {
    DayNumber(t.date) * SECONDS_PER_DAY + t.second
  }

  /** Whole minutes in `x` seconds, truncated toward zero as Rust's `/` on
      signed integers truncates. */
  function TruncMinutes(x: int): (q: int)
    ensures x >= 0 ==> 0 <= 60 * q <= x < 60 * q + 60
    ensures x < 0 ==> 60 * q - 60 < x <= 60 * q <= 0
  {
    if x >= 0 then x / 60 else -((-x) / 60)
  }

  /** `(b - a).num_minutes()`: whole minutes from `a` to `b`, truncated toward zero. */
  function MinutesBetween(a: DateTime, b: DateTime): int
    requires 1 <= a.date.month <= 12 && 1 <= b.date.month <= 12
  {
    TruncMinutes(Timestamp(b) - Timestamp(a))
  }

  /** Within one day, the minute count only depends on the seconds of the day. */
  lemma MinutesSameDay(a: DateTime, b: DateTime)
    requires 1 <= a.date.month <= 12 && a.date == b.date
    requires a.second <= b.second
    ensures 60 * MinutesBetween(a, b) <= b.second - a.second < 60 * MinutesBetween(a, b) + 60
  {
  }

  /** The Unix epoch has timestamp 0, and each day is 86400 seconds after the last. */
  lemma EpochIsZero()
    ensures Timestamp(UNIX_EPOCH) == 0
  {
  }
}
