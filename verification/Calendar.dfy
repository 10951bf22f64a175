/** The two Gregorian conversions: dates to days in the clock driver, days to dates in the FAT time stamps. */
module Calendar {

  datatype Date = Date(year: int, month: int, day: int)
  datatype Time = Time(hour: int, minute: int, second: int)

  /** C's division, which truncates toward zero. */
  function CDiv(a: int, b: int): int
    requires b > 0
  {
    if a >= 0 then a / b else -((-a) / b)
  }

  function CMod(a: int, b: int): int
    requires b > 0
  {
    a - CDiv(a, b) * b
  }

  predicate Leap(y: int) {
    y % 4 == 0 && (y % 100 != 0 || y % 400 == 0)
  }

  function DaysIn(y: int, m: int): int {
    if m == 2 then (if Leap(y) then 29 else 28)
    else if m == 4 || m == 6 || m == 9 || m == 11 then 30
    else 31
  }

  predicate Valid(t: Date) {
    1 <= t.month <= 12 && 1 <= t.day <= DaysIn(t.year, t.month)
  }

  predicate ValidTime(t: Time) {
    0 <= t.hour < 24 && 0 <= t.minute < 60 && 0 <= t.second < 60
  }

  /** The day after, by the calendar. */
  function Tomorrow(t: Date): Date {
    if t.day < DaysIn(t.year, t.month) then t.(day := t.day + 1)
    else if t.month < 12 then Date(t.year, t.month + 1, 1)
    else Date(t.year + 1, 1, 1)
  }

  /** Months counted from March. */
  function MonthOf(m: int): int {
    m + if m > 2 then -3 else 9
  }

  /** The day of a year that starts in March. */
  function DayOfYear(m: int, d: int): int {
    (153 * MonthOf(m) + 2) / 5 + d - 1
  }

  function DayOfEra(yoe: int, doy: int): int {
    yoe * 365 + yoe / 4 - yoe / 100 + doy
  }

  function EraOf(y: int): int {
    CDiv(if y >= 0 then y else y - 399, 400)
  }

  /** Days since 1970-01-01 of day `doy` of the year that starts in March of year `y`. */
  function MarchDays(y: int, doy: int): int {
    var era := EraOf(y);
    era * 146097 + DayOfEra(y - era * 400, doy) - 719468
  }

  function MarchYear(t: Date): int {
    t.year - if t.month <= 2 then 1 else 0
  }

  /** `days_from_civil`. */
  function DaysFromCivil(t: Date): int {
    MarchDays(MarchYear(t), DayOfYear(t.month, t.day))
  }

  function YearOfEra(doe: int): int {
    (doe - doe / 1460 + doe / 36524 - doe / 146096) / 365
  }

  /** The date of day `doe` of a 400-year era. */
  function DateInEra(era: int, doe: int): Date {
    var yoe := YearOfEra(doe);
    var doy := doe - (365 * yoe + yoe / 4 - yoe / 100);
    var mp := (5 * doy + 2) / 153;
    var day := doy - (153 * mp + 2) / 5 + 1;
    var month := mp + if mp < 10 then 3 else -9;
    Date(yoe + era * 400 + (if month <= 2 then 1 else 0), month, day)
  }

  /** The date computation of `fat_stamp`. */
  function CivilFromDays(days: int): Date {
    var z := days + 719468;
    var era := CDiv(if z >= 0 then z else z - 146096, 146097);
    DateInEra(era, z - era * 146097)
  }

  /** Rounding toward minus infinity, as the adjusted division of both functions does. */
  lemma FloorDiv(a: int, b: int, q: int)
    requires b == 400 || b == 146097
    requires q * b <= a < q * b + b
    ensures CDiv(if a >= 0 then a else a - (b - 1), b) == q
  {
  }

  /** The year that starts in March `yoe` is the 400-year cycle's: its last day is 29 February in a leap year. */
  predicate LastDay(yoe: int) {
    yoe % 4 == 3 && (yoe % 100 != 99 || yoe == 399)
  }

  lemma CenturyPart(c: int, x: int)
    requires 0 <= c < 4 && 0 <= x <= 36524 && (x == 36524 ==> c == 3)
    ensures var doe := 36524 * c + x; doe / 36524 - doe / 146096 == c
  {
  }

  lemma FourPart(k: int, w: int)
    ensures (1460 * k + w) / 1460 == k + w / 1460
  {
  }

  lemma YearDigits(c: int, q: int, r: int)
    requires 0 <= c < 4 && 0 <= q < 25 && 0 <= r < 4
    ensures var yoe := 100 * c + 4 * q + r; yoe / 4 == 25 * c + q && yoe / 100 == c
  {
  }

  /** The day of the year, less one where four years' worth of days is passed, stays within a year. */
  lemma DayLeft(c: int, q: int, r: int, doy: int)
    requires 0 <= c < 4 && 0 <= q < 25 && 0 <= r < 4 && 0 <= doy <= 365 && (doy == 365 ==> r == 3)
    ensures 0 <= doy - (24 * c + q + 365 * r + doy) / 1460 < 365
  {
    var w := 24 * c + q + 365 * r + doy;
    if w < 1460 { assert w / 1460 == 0; } else { assert w / 1460 == 1; }
  }

  /** `c` centuries, `q` further groups of four years and `r` more years. */
  lemma YearParts(c: int, q: int, r: int, doy: int)
    requires 0 <= c < 4 && 0 <= q < 25 && 0 <= r < 4 && 0 <= doy <= 365
    requires doy == 365 ==> r == 3 && (q < 24 || c == 3)
    ensures var yoe := 100 * c + 4 * q + r; var doe := DayOfEra(yoe, doy);
      0 <= doe < 146097 && YearOfEra(doe) == yoe
  {
    var yoe, x, w := 100 * c + 4 * q + r, 1461 * q + 365 * r + doy, 24 * c + q + 365 * r + doy;
    var doe := 36524 * c + x;
    YearDigits(c, q, r);
    CenturyPart(c, x);
    FourPart(25 * c + q, w);
    DayLeft(c, q, r, doy);
    assert doe / 1460 == 25 * c + q + w / 1460 by { assert doe == 1460 * (25 * c + q) + w; }
    YearQuotient(yoe, doy - w / 1460);
  }

  lemma YearQuotient(yoe: int, x: int)
    requires 0 <= x < 365
    ensures (365 * yoe + x) / 365 == yoe
  {
  }

  /** The year of the era is recovered from the day of the era. */
  lemma YearBack(yoe: int, doy: int)
    requires 0 <= yoe < 400 && 0 <= doy <= 365 && (doy == 365 ==> LastDay(yoe))
    ensures 0 <= DayOfEra(yoe, doy) < 146097 && YearOfEra(DayOfEra(yoe, doy)) == yoe
  {
    var c, q, r := yoe / 100, yoe % 100 / 4, yoe % 4;
    assert yoe == 100 * c + 4 * q + r;
    YearParts(c, q, r, doy);
  }

  /** Month and day are recovered from the day of the year. */
  lemma MonthBack(m: int, d: int)
    requires 1 <= m <= 12 && 1 <= d <= 31 && (m == 2 ==> d <= 29) && (m == 4 || m == 6 || m == 9 || m == 11 ==> d <= 30)
    ensures var doy := DayOfYear(m, d); var mp := (5 * doy + 2) / 153;
      0 <= doy <= 365 && mp == MonthOf(m) && doy - (153 * mp + 2) / 5 + 1 == d && (doy == 365 <==> m == 2 && d == 29)
  {
    if m == 1 {} else if m == 2 {} else if m == 3 {} else if m == 4 {} else if m == 5 {} else if m == 6 {}
    else if m == 7 {} else if m == 8 {} else if m == 9 {} else if m == 10 {} else if m == 11 {}
  }

  lemma Mod4(k: int, x: int)
    ensures (4 * k + x) % 4 == x % 4
  {
  }

  lemma Mod100(k: int, x: int)
    ensures (100 * k + x) % 100 == x % 100
  {
  }

  lemma Mod400(k: int, x: int)
    ensures (400 * k + x) % 400 == x % 400
  {
  }

  /** The last day of a year that starts in March falls in February of the next civil year. */
  lemma LeapParts(e: int, yoe: int)
    requires 0 <= yoe < 400
    ensures Leap(400 * e + yoe + 1) <==> LastDay(yoe)
  {
    Mod4(100 * e, yoe + 1);
    Mod100(4 * e, yoe + 1);
    Mod400(e, yoe + 1);
  }

  lemma EraRange(y: int)
    ensures 0 <= y - EraOf(y) * 400 < 400
  {
    FloorDiv(y, 400, y / 400);
  }

  /** Where date `t` lies: in a March-based year of an era, on its day `doy`. */
  lemma Placed(t: Date, yoe: int, doy: int)
    requires Valid(t) && yoe == MarchYear(t) - EraOf(MarchYear(t)) * 400 && doy == DayOfYear(t.month, t.day)
    ensures 0 <= yoe < 400 && 0 <= doy <= 365 && (doy == 365 ==> LastDay(yoe))
  {
    EraRange(MarchYear(t));
    MonthBack(t.month, t.day);
    LeapParts(EraOf(MarchYear(t)), yoe);
  }

  lemma DateBack(t: Date, era: int, yoe: int, doy: int)
    requires Valid(t) && yoe + era * 400 == MarchYear(t) && doy == DayOfYear(t.month, t.day)
    requires YearOfEra(DayOfEra(yoe, doy)) == yoe
    ensures DateInEra(era, DayOfEra(yoe, doy)) == t
  {
    MonthBack(t.month, t.day);
  }

  lemma FromEra(era: int, doe: int)
    requires 0 <= doe < 146097
    ensures CivilFromDays(era * 146097 + doe - 719468) == DateInEra(era, doe)
  {
    FloorDiv(era * 146097 + doe, 146097, era);
  }

  /** A date is the date of some day of some era, and that day's number is what the date maps to. */
  lemma DayInEra(t: Date) returns (era: int, doe: int)
    requires Valid(t)
    ensures 0 <= doe < 146097 && DaysFromCivil(t) == era * 146097 + doe - 719468 && DateInEra(era, doe) == t
  {
    era := EraOf(MarchYear(t));
    var yoe, doy := MarchYear(t) - era * 400, DayOfYear(t.month, t.day);
    doe := DayOfEra(yoe, doy);
    Placed(t, yoe, doy);
    YearBack(yoe, doy);
    DateBack(t, era, yoe, doy);
  }

  /** Day to date undoes date to day, for every date of the calendar. */
  lemma CivilRoundTrip(t: Date)
    requires Valid(t)
    ensures CivilFromDays(DaysFromCivil(t)) == t
  {
    var era, doe := DayInEra(t);
    FromEra(era, doe);
  }

  /** The day after the last one of a March-based year is the first of the next. */
  lemma YearEnd(yoe: int)
    requires 0 <= yoe < 400
    ensures var last := DayOfEra(yoe, if LastDay(yoe) then 365 else 364);
      if yoe == 399 then last + 1 == 146097 else last + 1 == DayOfEra(yoe + 1, 0)
  {
  }

  lemma NextEra(y: int)
    ensures var yoe := y - EraOf(y) * 400; EraOf(y + 1) == if yoe == 399 then EraOf(y) + 1 else EraOf(y)
  {
    var e := y / 400;
    FloorDiv(y, 400, e);
    FloorDiv(y + 1, 400, if y - e * 400 == 399 then e + 1 else e);
  }

  lemma MarchNext(y: int)
    ensures MarchDays(y + 1, 0) == MarchDays(y, if Leap(y + 1) then 365 else 364) + 1
  {
    var yoe := y - EraOf(y) * 400;
    EraRange(y);
    LeapParts(EraOf(y), yoe);
    YearEnd(yoe);
    NextEra(y);
  }

  /** Within a March-based year the days follow each other. */
  lemma DayEnd(t: Date)
    requires Valid(t) && !(t.month == 2 && t.day == DaysIn(t.year, 2))
    ensures var u := Tomorrow(t);
      Valid(u) && DayOfYear(u.month, u.day) == DayOfYear(t.month, t.day) + 1 && MarchYear(u) == MarchYear(t)
  {
  }

  /** From the last day of February to the first of March. */
  lemma FebruaryEnd(t: Date)
    requires Valid(t) && t.month == 2 && t.day == DaysIn(t.year, 2)
    ensures DaysFromCivil(Date(t.year, 3, 1)) == DaysFromCivil(t) + 1
  {
    MarchNext(t.year - 1);
    assert DayOfYear(2, t.day) == 336 + t.day && DayOfYear(3, 1) == 0;
  }

  /** Dates map to consecutive days. */
  lemma DaysCount(t: Date)
    requires Valid(t)
    ensures Valid(Tomorrow(t)) && DaysFromCivil(Tomorrow(t)) == DaysFromCivil(t) + 1
  {
    if t.month == 2 && t.day == DaysIn(t.year, 2) { FebruaryEnd(t); } else { DayEnd(t); }
  }

  /** Day 0 is the first of January 1970. */
  lemma Epoch()
    ensures DaysFromCivil(Date(1970, 1, 1)) == 0
  {
  }

  /** The day before, by the calendar. */
  function Yesterday(t: Date): Date {
    if t.day > 1 then t.(day := t.day - 1)
    else if t.month > 1 then Date(t.year, t.month - 1, DaysIn(t.year, t.month - 1))
    else Date(t.year - 1, 12, 31)
  }

  lemma DaysBack(t: Date)
    requires Valid(t)
    ensures Valid(Yesterday(t)) && Tomorrow(Yesterday(t)) == t
  {
  }

  /** Every day number is that of a date. */
  lemma {:induction false} DateOfDay(n: int) returns (t: Date)
    ensures Valid(t) && DaysFromCivil(t) == n
    decreases if n < 0 then -n else n
  {
    if n == 0 {
      t := Date(1970, 1, 1);
      Epoch();
    } else if n > 0 {
      t := DateOfDay(n - 1);
      DaysCount(t);
      t := Tomorrow(t);
    } else {
      var u := DateOfDay(n + 1);
      DaysBack(u);
      t := Yesterday(u);
      DaysCount(t);
    }
  }

  /** Date to day undoes day to date, for every day before and after the epoch. */
  lemma DayRoundTrip(n: int)
    ensures Valid(CivilFromDays(n)) && DaysFromCivil(CivilFromDays(n)) == n
  {
    var t := DateOfDay(n);
    CivilRoundTrip(t);
  }

  function Seconds(c: Time): int {
    c.hour * 3600 + c.minute * 60 + c.second
  }

  /** Seconds since the epoch, as the clock driver computes them. */
  function UnixTime(t: Date, c: Time): int {
    DaysFromCivil(t) * 86400 + Seconds(c)
  }

  /** The two 16-bit words of a FAT time stamp; their fields do not overlap, so sums stand for the bitwise ors. */
  datatype Stamp = Stamp(time: int, date: int)

  function Clamp(year: int): int {
    if year < 1980 then 1980 else if year > 2107 then 2107 else year
  }

  function Pack(t: Date, rem: int): Stamp {
    var hh, mm, ss := rem / 3600, rem % 3600 / 60, rem % 60;
    Stamp(hh * 2048 + mm * 32 + ss / 2, (Clamp(t.year) - 1980) * 512 + t.month * 32 + t.day)
  }

  /** `fat_stamp`. */
  function FatStamp(unix: int): Stamp {
    var days, rem := CDiv(unix, 86400), CMod(unix, 86400);
    if rem < 0 then Pack(CivilFromDays(days - 1), rem + 86400) else Pack(CivilFromDays(days), rem)
  }

  /** How a FAT driver reads the words, as the FAT specification lays them out. */
  function StampDate(s: Stamp): Date {
    Date(1980 + s.date / 512, s.date / 32 % 16, s.date % 32)
  }

  function StampTime(s: Stamp): Time {
    Time(s.time / 2048, s.time / 32 % 64, s.time % 32 * 2)
  }

  lemma SplitSeconds(days: int, rem: int)
    requires 0 <= rem < 86400
    ensures FatStamp(days * 86400 + rem) == Pack(CivilFromDays(days), rem)
  {
    var unix := days * 86400 + rem;
    if unix >= 0 {
      assert unix / 86400 == days;
    } else if rem == 0 {
      assert (-unix) / 86400 == -days;
    } else {
      assert (-unix) / 86400 == -days - 1;
    }
  }

  lemma PackedTime(c: Time)
    requires ValidTime(c)
    ensures var rem := Seconds(c);
      rem / 3600 == c.hour && rem % 3600 / 60 == c.minute && rem % 60 == c.second
  {
  }

  lemma UnpackDate(y: int, m: int, d: int)
    requires 0 <= y < 128 && 0 <= m < 16 && 0 <= d < 32
    ensures var w := y * 512 + m * 32 + d; 0 <= w < 0x1_0000 && w / 512 == y && w / 32 % 16 == m && w % 32 == d
  {
    var w := y * 512 + m * 32 + d;
    assert w / 32 == y * 16 + m;
  }

  lemma UnpackTime(h: int, m: int, x: int)
    requires 0 <= h < 32 && 0 <= m < 64 && 0 <= x < 32
    ensures var w := h * 2048 + m * 32 + x; 0 <= w < 0x1_0000 && w / 2048 == h && w / 32 % 64 == m && w % 32 == x
  {
    var w := h * 2048 + m * 32 + x;
    assert w / 32 == h * 64 + m;
  }

  /**
   The stamp holds 16-bit words and reads as the date and the time to two seconds. Years before 1980 read as 1980,
   and years after 2107 as 2107.
   */
  predicate Reads(s: Stamp, t: Date, c: Time) {
    && 0 <= s.date < 0x1_0000 && 0 <= s.time < 0x1_0000
    && (1980 <= t.year <= 2107 ==> StampDate(s) == t)
    && (t.year < 1980 ==> StampDate(s) == Date(1980, t.month, t.day))
    && (t.year > 2107 ==> StampDate(s) == Date(2107, t.month, t.day))
    && StampTime(s) == Time(c.hour, c.minute, c.second - c.second % 2)
  }

  lemma PackReads(t: Date, c: Time)
    requires 1 <= t.month <= 12 && 1 <= t.day <= 31 && ValidTime(c)
    ensures Reads(Pack(t, Seconds(c)), t, c)
  {
    PackedTime(c);
    UnpackDate(Clamp(t.year) - 1980, t.month, t.day);
    UnpackTime(c.hour, c.minute, c.second / 2);
  }

  /** The stamp of a time on day `days` is the packing of that day's date and that time. */
  lemma StampOf(days: int, t: Date, rem: int, unix: int)
    requires CivilFromDays(days) == t && 0 <= rem < 86400 && unix == days * 86400 + rem
    ensures FatStamp(unix) == Pack(t, rem)
  {
    SplitSeconds(days, rem);
  }

  lemma StampReads(t: Date, c: Time, s: Stamp)
    requires Valid(t) && ValidTime(c) && s == Pack(t, Seconds(c))
    ensures Reads(s, t, c)
  {
    PackReads(t, c);
  }

  lemma SecondsRange(c: Time)
    requires ValidTime(c)
    ensures 0 <= Seconds(c) < 86400
  {
  }

  /** The stamp of a date and time reads back as just these. */
  lemma StampRoundTrip(t: Date, c: Time)
    requires Valid(t) && ValidTime(c)
    ensures Reads(FatStamp(UnixTime(t, c)), t, c)
  {
    CivilRoundTrip(t);
    SecondsRange(c);
    StampOf(DaysFromCivil(t), t, Seconds(c), UnixTime(t, c));
    StampReads(t, c, FatStamp(UnixTime(t, c)));
  }

  /** Every second before and after the epoch is that of a date and time, which its stamp reads back as. */
  lemma EveryStamp(unix: int) returns (t: Date, c: Time)
    ensures Valid(t) && ValidTime(c) && UnixTime(t, c) == unix && Reads(FatStamp(unix), t, c)
  {
    t := DateOfDay(unix / 86400);
    c := TimeOf(unix % 86400);
    StampRoundTrip(t, c);
  }

  lemma TimeOf(rem: int) returns (c: Time)
    requires 0 <= rem < 86400
    ensures ValidTime(c) && Seconds(c) == rem
  {
    c := Time(rem / 3600, rem % 3600 / 60, rem % 60);
    assert rem % 3600 % 60 == rem % 60;
  }
}
