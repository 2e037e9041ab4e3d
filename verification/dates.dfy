/** Calendar arithmetic and the date strings the date and date-time inputs produce and read.
    A JavaScript `Date` is a time value: milliseconds since 1970-01-01T00:00Z. The host
    time zone is taken to be UTC, so the local getters (`getFullYear`, `getMonth`, ...)
    and the UTC ones agree. The getters themselves belong to the JavaScript runtime, not to
    the editor: the day-number arithmetic below (Hinnant's days-from-civil and its inverse)
    stands in for them, and the lemmas about it prove that stand-in exact. */
module Dates {
  import opened Text
  import opened Wrappers

  const MsPerDay: int := 86400000
  /** The largest magnitude of a valid time value (`TimeClip`). */
  const MaxTime: int := 8640000000000000

  /** A broken-down time value, as the local getters report it. `month` is 1-based
      (`getMonth() + 1`). */
  datatype DateRec = DateRec(year: int, month: int, day: int, hour: int, minute: int, second: int, ms: int)

  predicate IsLeapYear(y: int) {
    (y % 4 == 0 && y % 100 != 0) || y % 400 == 0
  }

  function DaysInMonth(y: int, m: int): int
    requires 1 <= m <= 12
  {
    if m == 2 then (if IsLeapYear(y) then 29 else 28)
    else if m == 4 || m == 6 || m == 9 || m == 11 then 30
    else 31
  }

  /** A record whose fields are all in their calendar ranges. */
  predicate ValidRec(d: DateRec) {
    && 1 <= d.month <= 12 && 1 <= d.day <= DaysInMonth(d.year, d.month)
    && 0 <= d.hour < 24 && 0 <= d.minute < 60 && 0 <= d.second < 60 && 0 <= d.ms < 1000
  }

  /** Days from 1970-01-01 to the given proleptic Gregorian date. */
  function DaysFromCivil(y: int, m: int, d: int): int {
    DaysFromMarchYear(if m <= 2 then y - 1 else y, DayOfMarchYear(m, d))
  }

  /** Day of a year that starts on 1 March, for month `m` and day `d`. */
  function DayOfMarchYear(m: int, d: int): int {
    var mp := if m > 2 then m - 3 else m + 9;
    (153 * mp + 2) / 5 + d - 1
  }

  /** Days from 1970-01-01 to day `doy` of the March-based year starting in `y`. */
  function DaysFromMarchYear(y: int, doy: int): int {
    var era := y / 400;
    var yoe := y - era * 400;
    era * 146097 + yoe * 365 + yoe / 4 - yoe / 100 + doy - 719468
  }

  /** The proleptic Gregorian (year, month, day) of a day number counted from 1970-01-01. */
  function CivilFromDays(z: int): (int, int, int) {
    var z' := z + 719468;
    var era := z' / 146097;
    DateInEra(era, z' - era * 146097)
  }

  /** The date of day `doe` of 400-year era `era`. */
  function DateInEra(era: int, doe: int): (int, int, int) {
    var yoe := YearOfDayOfEra(doe);
    DateOfMarchYear(yoe + era * 400, doe - (365 * yoe + yoe / 4 - yoe / 100))
  }

  /** The date of day `doy` of the March-based year starting in `y`. */
  function DateOfMarchYear(y: int, doy: int): (int, int, int) {
    var mp := (5 * doy + 2) / 153;
    var d := doy - (153 * mp + 2) / 5 + 1;
    var m := if mp < 10 then mp + 3 else mp - 9;
    (if m <= 2 then y + 1 else y, m, d)
  }

  /** The fields the getters report for time value `t`. */
  function RecOf(t: int): (r: DateRec)
    ensures 0 <= r.hour < 24 && 0 <= r.minute < 60 && 0 <= r.second < 60 && 0 <= r.ms < 1000
  {
    var days := t / 86400000;
    var inDay := t % 86400000;
    var (y, m, d) := CivilFromDays(days);
    DateRec(y, m, d, inDay / 3600000, inDay / 60000 % 60, inDay / 1000 % 60, inDay % 1000)
  }

  /** The time value of a broken-down local time (`MakeDate(MakeDay(..), MakeTime(..))`). */
  function TimeOf(d: DateRec): int {
    DaysFromCivil(d.year, d.month, d.day) * 86400000
      + d.hour * 3600000 + d.minute * 60000 + d.second * 1000 + d.ms
  }

  /** `TimeClip`: whether a number is a valid time value. */
  predicate InTimeRange(t: int) {
    -MaxTime <= t <= MaxTime
  }

  /** `padStart(width, '0')` on the decimal digits of `n`. */
  function PadNat(n: nat, width: nat): (r: string)
    ensures |r| >= width
    decreases width
  {
    var s := NatToString(n);
    if |s| >= width then s else "0" + PadNat(n, width - 1)
  }

  /** `YYYY-MM-DD` with the year written as `getFullYear()` gives it (no padding). */
  function FormatDate(d: DateRec): string {
    IntToString(d.year) + "-" + Pad2(d.month) + "-" + Pad2(d.day)
  }

  /** `YYYY-MM-DD HH:MM`, the date-time display format. */
  function FormatDateTime(d: DateRec): string {
    FormatDate(d) + " " + Pad2(d.hour) + ":" + Pad2(d.minute)
  }

  /** `YYYY-MM-DDTHH:MM`, the format a `datetime-local` control accepts. */
  function FormatDateTimeLocal(d: DateRec): string {
    FormatDate(d) + "T" + Pad2(d.hour) + ":" + Pad2(d.minute)
  }

  const WeekdayNames: seq<string> := ["Sun", "Mon", "Tue", "Wed", "Thu", "Fri", "Sat"]
  const MonthNames: seq<string> := ["Jan", "Feb", "Mar", "Apr", "May", "Jun", "Jul", "Aug", "Sep", "Oct", "Nov", "Dec"]

  function MonthName(m: int): string {
    if 1 <= m <= 12 then MonthNames[m - 1] else "???"
  }

  /** The year as `Date.prototype.toString` writes it: sign, then at least four digits. */
  function SignedYear4(y: int): string {
    if y >= 0 then PadNat(y, 4) else "-" + PadNat(-y, 4)
  }

  /** `String(date)` for a valid date in a UTC host. */
  function ToDateString(t: int): string {
    var d := RecOf(t);
    var weekday := (t / 86400000 + 4) % 7;
    WeekdayNames[weekday] + " " + MonthName(d.month) + " " + Pad2(d.day) + " " + SignedYear4(d.year)
      + " " + Pad2(d.hour) + ":" + Pad2(d.minute) + ":" + Pad2(d.second)
      + " GMT+0000 (Coordinated Universal Time)"
  }

  /** `date.toISOString()`, which is also what `JSON.stringify` writes for a date. */
  function ToIsoString(t: int): string {
    var d := RecOf(t);
    var year := if 0 <= d.year <= 9999 then PadNat(d.year, 4)
      else if d.year < 0 then "-" + PadNat(-d.year, 6) else "+" + PadNat(d.year, 6);
    year + "-" + Pad2(d.month) + "-" + Pad2(d.day) + "T" + Pad2(d.hour) + ":" + Pad2(d.minute)
      + ":" + Pad2(d.second) + "." + PadNat(d.ms, 3) + "Z"
  }

  /** The number written by the two digits at `s[i..i + 2]`, if they are digits. */
  function Digits2At(s: string, i: nat): (r: Option<nat>)
    requires i + 2 <= |s|
  {
    if AllDigits(s[i..i + 2]) then Some(ParseDigits(s[i..i + 2])) else None
  }

  /** The time value of a recognised date string, or `None` where `new Date(s)` is invalid.
      Recognised: `YYYY-MM-DD` (midnight), and `YYYY-MM-DD` followed by `T` or a space and
      `HH:MM` or `HH:MM:SS`. Fields out of their calendar ranges make the date invalid. */
  function ParseDateString(s: string): (r: Option<int>)
    ensures r.Some? ==> |s| == 10 || |s| == 16 || |s| == 19
  {
    if !(|s| == 10 || |s| == 16 || |s| == 19) then None
    else if !(AllDigits(s[..4]) && s[4] == '-' && s[7] == '-') then None
    else
      var y := ParseDigits(s[..4]);
      match (Digits2At(s, 5), Digits2At(s, 8))
      case (Some(m), Some(d)) =>
        if !(1 <= m <= 12 && 1 <= d <= DaysInMonth(y, m)) then None
        else if |s| == 10 then Some(TimeOf(DateRec(y, m, d, 0, 0, 0, 0)))
        else if !((s[10] == 'T' || s[10] == ' ') && s[13] == ':') then None
        else
          (match (Digits2At(s, 11), Digits2At(s, 14))
           case (Some(h), Some(mi)) =>
             if !(h < 24 && mi < 60) then None
             else if |s| == 16 then Some(TimeOf(DateRec(y, m, d, h, mi, 0, 0)))
             else if s[16] != ':' then None
             else
               (match Digits2At(s, 17)
                case Some(sec) => if sec < 60 then Some(TimeOf(DateRec(y, m, d, h, mi, sec, 0))) else None
                case None => None)
           case _ => None)
      case _ => None
  }

  /** The year of an era (0 to 399) that day `doe` of the era falls in. */
  function YearOfDayOfEra(doe: int): int {
    (doe - doe / 1460 + doe / 36524 - doe / 146096) / 365
  }

  // ---- the calendar conversion is exact ----

  /** Days in the first `k` years of a 400-year era that starts on 1 March. */
  function EraDays(k: int): int {
    365 * k + k / 4 - k / 100 + k / 400
  }

  /** The year formula on a day given as century `c`, four-year block `q` and day `s` of
      the block. */
  lemma YearOfParts(c: int, q: int, s: int) returns (e: int, j: int)
    requires 0 <= c <= 3 && 0 <= q <= 24 && 0 <= s <= 1460 && (q == 24 ==> s <= 1459)
    ensures 0 <= e <= 1 && (e == 1 ==> s >= 1364) && 0 <= j <= 3 && 365 * j <= s - e < 365 * (j + 1)
    ensures YearOfDayOfEra(36524 * c + 1461 * q + s) == 100 * c + 4 * q + j
  {
    var doe := 36524 * c + 1461 * q + s;
    var E := 24 * c + q + s;
    assert doe == 1460 * (25 * c + q) + E;
    assert doe / 1460 == 25 * c + q + E / 1460;
    assert doe / 36524 == c;
    e := E / 1460;
    j := (s - e) / 365;
  }

  /** Where year `100c + 4q + j` of an era starts, and how long it is. */
  lemma EraDaysOfParts(c: int, q: int, j: int)
    requires 0 <= c <= 3 && 0 <= q <= 24 && 0 <= j <= 3
    ensures var k := 100 * c + 4 * q + j;
      && EraDays(k) == 36524 * c + 1461 * q + 365 * j
      && EraDays(k + 1) - EraDays(k) == if j == 3 && (q < 24 || c == 3) then 366 else 365
  {
    var k := 100 * c + 4 * q + j;
    assert k / 4 == 25 * c + q && k / 100 == c && k / 400 == 0;
    if j < 3 {
      assert (k + 1) / 4 == 25 * c + q && (k + 1) / 100 == c && (k + 1) / 400 == 0;
    } else if q < 24 {
      assert (k + 1) / 4 == 25 * c + q + 1 && (k + 1) / 100 == c && (k + 1) / 400 == 0;
    } else {
      assert (k + 1) / 4 == 25 * c + q + 1 && (k + 1) / 100 == c + 1 && (k + 1) / 400 == (if c == 3 then 1 else 0);
    }
  }

  /** A day of an era before its last one, as century, four-year block and day of block. */
  lemma SplitDayOfEra(doe: int) returns (c: int, q: int, s: int)
    requires 0 <= doe < 146096
    ensures 0 <= c <= 3 && 0 <= q <= 24 && 0 <= s <= 1460 && (q == 24 ==> s <= 1459)
    ensures doe == 36524 * c + 1461 * q + s
  {
    c := doe / 36524;
    var r := doe - 36524 * c;
    q := r / 1461;
    s := r - 1461 * q;
  }

  /** Day `doe` of an era falls in year `k` of the era. */
  predicate InEraYear(doe: int, k: int) {
    0 <= k <= 399 && EraDays(k) <= doe < EraDays(k + 1)
  }

  lemma DayInEraYear(c: int, q: int, s: int, e: int, j: int)
    requires 0 <= c <= 3 && 0 <= q <= 24 && 0 <= s <= 1460 && (q == 24 ==> s <= 1459)
    requires 0 <= e <= 1 && (e == 1 ==> s >= 1364) && 0 <= j <= 3 && 365 * j <= s - e < 365 * (j + 1)
    ensures InEraYear(36524 * c + 1461 * q + s, 100 * c + 4 * q + j)
  {
    EraDaysOfParts(c, q, j);
    assert e == 1 ==> j == 3;
  }

  /** The extra day of the 400th year, 29 February of the era's final leap year. */
  lemma LastDayOfEra()
    ensures InEraYear(146096, YearOfDayOfEra(146096))
  {
    assert YearOfDayOfEra(146096) == 399;
    assert EraDays(399) == 145731 && EraDays(400) == 146097;
  }

  lemma {:induction false} YearOfEra(doe: int)
    requires 0 <= doe < 146097
    ensures InEraYear(doe, YearOfDayOfEra(doe))
  {
    if doe == 146096 {
      LastDayOfEra();
    } else {
      var c, q, s := SplitDayOfEra(doe);
      var e, j := YearOfParts(c, q, s);
      DayInEraYear(c, q, s, e, j);
    }
  }

  /** Month (counted from March) and day of month of day `doy` of a March-based year. */
  lemma MonthOfDay(doy: int)
    requires 0 <= doy <= 365
    ensures var mp := (5 * doy + 2) / 153;
      var d := doy - (153 * mp + 2) / 5 + 1;
      var m := if mp < 10 then mp + 3 else mp - 9;
      && 0 <= mp <= 11 && 1 <= d
      && (mp == 11 ==> d == doy - 336)
      && (mp < 11 ==> d <= DaysInMonth(0, m))
  {
  }

  /** Adding whole eras does not change a year's place in the 4-, 100- and 400-year cycles. */
  lemma EraShift(era: int, x: int)
    ensures (era * 400 + x) % 4 == x % 4
    ensures (era * 400 + x) % 100 == x % 100
    ensures (era * 400 + x) % 400 == x % 400
  {
    assert (era * 400 + x) / 4 == era * 100 + x / 4;
    assert (era * 400 + x) / 100 == era * 4 + x / 100;
    assert (era * 400 + x) / 400 == era + x / 400;
  }

  /** The count of multiples of `4`, `100` and `400` grows by one exactly at a multiple. */
  lemma QuotientSteps(x: int)
    ensures (x + 1) / 4 - x / 4 == if (x + 1) % 4 == 0 then 1 else 0
    ensures (x + 1) / 100 - x / 100 == if (x + 1) % 100 == 0 then 1 else 0
    ensures (x + 1) / 400 - x / 400 == if (x + 1) % 400 == 0 then 1 else 0
  {
  }

  /** The length of year `k` of an era, in March-based years: 366 exactly when the
      following calendar year is a leap year. */
  lemma EraYearLength(era: int, k: int)
    requires 0 <= k <= 399
    ensures EraDays(k + 1) - EraDays(k) == if IsLeapYear(era * 400 + k + 1) then 366 else 365
  {
    EraShift(era, k + 1);
    QuotientSteps(k);
  }

  /** `r` is a real (year, month, day) date lying `z` days after 1970-01-01. */
  predicate IsDateOfDay(r: (int, int, int), z: int) {
    1 <= r.1 <= 12 && 1 <= r.2 <= DaysInMonth(r.0, r.1) && DaysFromCivil(r.0, r.1, r.2) == z
  }

  /** Day `doy` of the March-based year that starts in `y` is a real date, and
      `DaysFromCivil` takes it back to the same day. */
  lemma YearDayRoundTrip(y: int, doy: int)
    requires 0 <= doy < if IsLeapYear(y + 1) then 366 else 365
    ensures IsDateOfDay(DateOfMarchYear(y, doy), DaysFromMarchYear(y, doy))
  {
    MonthOfDay(doy);
    var (year, m, d) := DateOfMarchYear(y, doy);
    assert (if m <= 2 then year - 1 else year) == y;
    assert DayOfMarchYear(m, d) == doy;
  }

  /** The year of era `era` that day `doe` falls in, and the day of that year, as
      `DateInEra` computes them. */
  lemma {:induction false} SplitEraDay(era: int, doe: int) returns (yoe: int, doy: int)
    requires 0 <= doe < 146097
    ensures yoe == YearOfDayOfEra(doe) && doy == doe - (365 * yoe + yoe / 4 - yoe / 100)
    ensures 0 <= yoe <= 399 && EraDays(yoe) + doy == doe
    ensures 0 <= doy < if IsLeapYear(yoe + era * 400 + 1) then 366 else 365
  {
    YearOfEra(doe);
    yoe := YearOfDayOfEra(doe);
    doy := doe - (365 * yoe + yoe / 4 - yoe / 100);
    EraYearLength(era, yoe);
  }

  /** Day `doe` of an era is a real date that `DaysFromCivil` takes back to that day. */
  lemma {:induction false} EraDayRoundTrip(era: int, doe: int)
    requires 0 <= doe < 146097
    ensures IsDateOfDay(DateInEra(era, doe), era * 146097 + doe - 719468)
  {
    var yoe, doy := SplitEraDay(era, doe);
    YearDayRoundTrip(yoe + era * 400, doy);
    EraYearStart(era, yoe, doy);
    assert DateInEra(era, doe) == DateOfMarchYear(yoe + era * 400, doy);
  }

  /** Where year `yoe` of era `era` starts, counted from 1970-01-01. */
  lemma EraYearStart(era: int, yoe: int, doy: int)
    requires 0 <= yoe <= 399
    ensures DaysFromMarchYear(yoe + era * 400, doy) == era * 146097 + EraDays(yoe) + doy - 719468
  {
    assert (yoe + era * 400) / 400 == era;
  }

  /** `CivilFromDays` gives a real calendar date, and `DaysFromCivil` takes it back to the
      same day. */
  lemma {:induction false} CivilRoundTrip(z: int)
    ensures IsDateOfDay(CivilFromDays(z), z)
  {
    var z' := z + 719468;
    var era := z' / 146097;
    var doe := z' - era * 146097;
    EraDayRoundTrip(era, doe);
    assert era * 146097 + doe - 719468 == z;
    assert CivilFromDays(z) == DateInEra(era, doe);
  }
  /** The hour and minute fields of a time of day, as milliseconds: the time of day less
      its part of a minute. */
  lemma HourMinuteOfDay(inDay: int)
    requires 0 <= inDay < MsPerDay
    ensures inDay - inDay % 60000 == inDay / 3600000 * 3600000 + inDay / 60000 % 60 * 60000
  {
    var mins := inDay / 60000;
    assert inDay - inDay % 60000 == mins * 60000;
    assert inDay / 3600000 == mins / 60;
  }

  /** The second and millisecond fields of a time of day make up its part of a minute. */
  lemma SecondMsOfDay(inDay: int)
    requires 0 <= inDay < MsPerDay
    ensures inDay % 60000 == inDay / 1000 % 60 * 1000 + inDay % 1000
  {
    var secs := inDay / 1000;
    assert inDay / 60000 == secs / 60;
  }

  /** The part of a minute is the same counted from the epoch or from midnight. */
  lemma MinuteOfEpochDay(t: int)
    ensures t % 60000 == t % MsPerDay % 60000
  {
    var days := t / MsPerDay;
    assert t == days * MsPerDay + t % MsPerDay;
    assert days * MsPerDay == (days * 1440) * 60000;
  }

  /** The getters' fields form a real date and time, and putting them back together gives
      the time value they were read from. */
  lemma RecOfTimeOf(t: int)
    ensures ValidRec(RecOf(t)) && TimeOf(RecOf(t)) == t
  {
    CivilRoundTrip(t / MsPerDay);
    HourMinuteOfDay(t % MsPerDay);
    SecondMsOfDay(t % MsPerDay);
  }

  /** Distinct time values have distinct broken-down fields. */
  lemma RecOfInjective(t1: int, t2: int)
    requires RecOf(t1) == RecOf(t2)
    ensures t1 == t2
  {
    RecOfTimeOf(t1);
    RecOfTimeOf(t2);
  }

  /** Zeroing the time fields gives midnight of the same day. */
  lemma MidnightOfDay(t: int)
    ensures TimeOf(RecOf(t).(hour := 0, minute := 0, second := 0, ms := 0)) == t - t % MsPerDay
  {
    CivilRoundTrip(t / MsPerDay);
  }

  /** Zeroing the seconds and milliseconds gives the start of the same minute. */
  lemma StartOfMinute(t: int)
    ensures TimeOf(RecOf(t).(second := 0, ms := 0)) == t - t % 60000
  {
    CivilRoundTrip(t / MsPerDay);
    HourMinuteOfDay(t % MsPerDay);
    MinuteOfEpochDay(t);
  }

  /** A record a four-digit-year date input can show. */
  predicate ShowableRec(d: DateRec) {
    ValidRec(d) && 1000 <= d.year <= 9999
  }

  /** A four-digit-year date lies well inside the valid time range. */
  lemma TimeOfShowableInRange(d: DateRec)
    requires ShowableRec(d)
    ensures InTimeRange(TimeOf(d))
  {
    var y' := if d.month <= 2 then d.year - 1 else d.year;
    assert 2 <= y' / 400 <= 24;
    var days := DaysFromCivil(d.year, d.month, d.day);
    assert -1000000 <= days <= 4000000;
  }

  lemma {:induction false} FormatDateShape(d: DateRec)
    requires ShowableRec(d)
    ensures var s := FormatDate(d);
      && |s| == 10 && s[..4] == NatToString(d.year) && s[4] == '-' && s[7] == '-'
      && s[5..7] == Pad2(d.month) && s[8..10] == Pad2(d.day)
  {
    NatToStringLength(d.year);
    var s := FormatDate(d);
    var p, q := Pad2(d.month), Pad2(d.day);
    assert s == NatToString(d.year) + "-" + p + "-" + q;
  }

  /** Reading back the display of a date gives midnight of the same calendar day. */
  lemma {:induction false} ParseFormatDate(d: DateRec)
    requires ShowableRec(d)
    ensures ParseDateString(FormatDate(d)) == Some(TimeOf(d.(hour := 0, minute := 0, second := 0, ms := 0)))
  {
    var s := FormatDate(d);
    FormatDateShape(d);
    ParseNatToString(d.year);
    assert Digits2At(s, 5) == Some(d.month);
    assert Digits2At(s, 8) == Some(d.day);
  }

  /** The layout of a date followed by `sep` and `HH:MM`: every field where the parser
      looks for it. */
  lemma {:induction false} DateTimeTextShape(d: DateRec, sep: char)
    requires ShowableRec(d)
    ensures var s := FormatDate(d) + [sep] + Pad2(d.hour) + ":" + Pad2(d.minute);
      && |s| == 16 && AllDigits(s[..4]) && ParseDigits(s[..4]) == d.year
      && s[4] == '-' && s[7] == '-' && s[10] == sep && s[13] == ':'
      && Digits2At(s, 5) == Some(d.month) && Digits2At(s, 8) == Some(d.day)
      && Digits2At(s, 11) == Some(d.hour) && Digits2At(s, 14) == Some(d.minute)
  {
    var f := FormatDate(d);
    var s := f + [sep] + Pad2(d.hour) + ":" + Pad2(d.minute);
    FormatDateShape(d);
    ParseNatToString(d.year);
    assert s[..10] == f;
    assert s[..4] == f[..4];
    assert s[5..7] == f[5..7] && s[8..10] == f[8..10];
    assert s[11..13] == Pad2(d.hour) && s[14..16] == Pad2(d.minute);
  }

  /** A date, a `T` or a space, and `HH:MM` read back to the start of that minute. */
  lemma {:induction false} ParseDateTimeText(d: DateRec, sep: char)
    requires ShowableRec(d) && (sep == 'T' || sep == ' ')
    ensures ParseDateString(FormatDate(d) + [sep] + Pad2(d.hour) + ":" + Pad2(d.minute))
            == Some(TimeOf(d.(second := 0, ms := 0)))
  {
    DateTimeTextShape(d, sep);
    ParseOfFields(FormatDate(d) + [sep] + Pad2(d.hour) + ":" + Pad2(d.minute), d.year, d.month, d.day, d.hour, d.minute);
  }

  /** A 16-character string with a date, a `T` or a space and `HH:MM` in their places,
      every field in range, parses to the start of that minute. */
  lemma ParseOfFields(s: string, y: nat, m: nat, day: nat, h: nat, mi: nat)
    requires |s| == 16 && AllDigits(s[..4]) && ParseDigits(s[..4]) == y
    requires s[4] == '-' && s[7] == '-' && (s[10] == 'T' || s[10] == ' ') && s[13] == ':'
    requires Digits2At(s, 5) == Some(m) && Digits2At(s, 8) == Some(day)
    requires Digits2At(s, 11) == Some(h) && Digits2At(s, 14) == Some(mi)
    requires 1 <= m <= 12 && 1 <= day <= DaysInMonth(y, m) && h < 24 && mi < 60
    ensures ParseDateString(s) == Some(TimeOf(DateRec(y, m, day, h, mi, 0, 0)))
  {
  }

  /** Reading back what a `datetime-local` control is given yields the same minute. */
  lemma {:induction false} ParseFormatDateTimeLocal(d: DateRec)
    requires ShowableRec(d)
    ensures ParseDateString(FormatDateTimeLocal(d)) == Some(TimeOf(d.(second := 0, ms := 0)))
  {
    ParseDateTimeText(d, 'T');
  }

  /** The date-time display format reads back to the same minute too. */
  lemma {:induction false} ParseFormatDateTime(d: DateRec)
    requires ShowableRec(d)
    ensures ParseDateString(FormatDateTime(d)) == Some(TimeOf(d.(second := 0, ms := 0)))
  {
    ParseDateTimeText(d, ' ');
  }
}
