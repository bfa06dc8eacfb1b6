/** Civil-calendar arithmetic of src-tauri/src/localtime.rs: day number <-> date. */
module LocalTime {
  import opened Integers

  const SECS_PER_DAY := 86_400

  datatype Date = Date(year: int, month: int, day: int)

  /** (year, month, day, hour, minute, second), as the program's six-tuple. */
  datatype Components = Components(date: Date, hour: int, minute: int, second: int)

  // ----- the proleptic Gregorian calendar (the reference) -----

  predicate IsLeap(y: int) {
    y % 4 == 0 && (y % 100 != 0 || y % 400 == 0)
  }

  function DaysInMonth(y: int, m: int): int {
    if m == 2 then (if IsLeap(y) then 29 else 28)
    else if m == 4 || m == 6 || m == 9 || m == 11 then 30
    else 31
  }

  predicate ValidDate(d: Date) {
    1 <= d.month <= 12 && 1 <= d.day <= DaysInMonth(d.year, d.month)
  }

  /** The calendar successor of a date. */
  function NextDay(d: Date): Date {
    if d.day < DaysInMonth(d.year, d.month) then d.(day := d.day + 1)
    else if d.month < 12 then Date(d.year, d.month + 1, 1)
    else Date(d.year + 1, 1, 1)
  }

  // ----- the program -----

  /** Integer division as the program's language does it: towards zero. */
  function TruncDiv(a: int, b: int): int
    requires b > 0
  {
    if a >= 0 then a / b else -((-a) / b)
  }

  /** Number of days before year `yoe` of a 400-year era that starts on 1 March. */
  function YearStart(yoe: int): int {
    365 * yoe + yoe / 4 - yoe / 100
  }

  /** A 400-year era and the year, or the day, within it. */
  datatype InEra = InEra(era: int, offset: int)

  function EraOfYear(y: int): InEra {
    var era := TruncDiv(if y >= 0 then y else y - 399, 400);
    InEra(era, y - era * 400)
  }

  function EraOfDay(z: int): InEra {
    var era := TruncDiv(if z >= 0 then z else z - 146_096, 146_097);
    InEra(era, z - era * 146_097)
  }

  /** Days between 1 March and month `m`, day `d`. */
  function SinceMarch(m: int, d: int): int {
    var mp := if m > 2 then m - 3 else m + 9;
    (153 * mp + 2) / 5 + d - 1
  }

  function DayInEra(e: InEra, doy: int): int {
    e.era * 146_097 + (YearStart(e.offset) + doy) - 719_468
  }

  function YmdToDays(y: int, m: int, d: int): int {
    DayInEra(EraOfYear(if m <= 2 then y - 1 else y), SinceMarch(m, d))
  }

  /** Year of the era from the day of the era. */
  function YearOfEraDay(doe: int): int {
    (doe - doe / 1460 + doe / 36524 - doe / 146_096) / 365
  }

  /** The date from the year (from 1 March) and the day of that year. */
  function DateOfYearDay(y: int, doy: int): Date {
    var mp := (5 * doy + 2) / 153;
    var d := doy - (153 * mp + 2) / 5 + 1;
    var m := if mp < 10 then mp + 3 else mp - 9;
    Date(if m <= 2 then y + 1 else y, m, d)
  }

  function DateInEra(e: InEra): Date {
    var yoe := YearOfEraDay(e.offset);
    DateOfYearDay(yoe + e.era * 400, e.offset - YearStart(yoe))
  }

  /** The date of a day number before the final narrowing of the year. */
  function CivilFromDays(z: int): Date {
    DateInEra(EraOfDay(z + 719_468))
  }

  /** `days_to_ymd`: the year is narrowed to 32 bits by truncation. */
  function DaysToYmd(z: int): Date {
    var c := CivilFromDays(z);
    c.(year := c.year % LIMIT32)
  }

  function UtcComponents(secs: int): Components {
    var daySecs := secs % SECS_PER_DAY;
    Components(DaysToYmd(secs / SECS_PER_DAY), daySecs / 3600, (daySecs % 3600) / 60, daySecs % 60)
  }

  function SecsFromUtcComponents(c: Components): int {
    YmdToDays(c.date.year, c.date.month, c.date.day) * SECS_PER_DAY + c.hour * 3600 + c.minute * 60 + c.second
  }

  // ----- eras, years of an era, days of a year -----

  /** Length of the year that starts on 1 March of year `yoe` of an era. */
  function YearLength(yoe: int): int {
    if IsLeap(yoe + 1) then 366 else 365
  }

  /** The shifted truncating divisions of the program are floor divisions. */
  lemma {:induction false} ErasAreFloors(n: int)
    ensures EraOfYear(n) == InEra(n / 400, n % 400)
    ensures EraOfDay(n) == InEra(n / 146_097, n % 146_097)
  {
  }

  /** A year of an era, written as century, four-year cycle and year of the cycle. */
  lemma {:induction false} SplitYear(c: int, q: int, r: int)
    requires 0 <= c < 4 && 0 <= q < 25 && 0 <= r < 4
    ensures var yoe := 100 * c + 4 * q + r;
      0 <= yoe < 400 && yoe / 100 == c && (yoe % 100) / 4 == q && yoe % 4 == r &&
      YearStart(yoe) == 36524 * c + 1461 * q + 365 * r &&
      (YearLength(yoe) == 366 <==> r == 3 && (q == 24 ==> c == 3))
  {
  }

  /** The four-year cycles before a day, one too many once the day is past the cycle's 1460th. */
  lemma {:induction false} CyclesBefore(n: int, over: int)
    requires 0 <= over < 2920
    ensures (1460 * n + over) / 1460 == n + if over >= 1460 then 1 else 0
  {
  }

  lemma {:induction false} CenturiesBefore(c: int, rest: int)
    requires 0 <= c < 4 && 0 <= rest <= 36524 && (rest == 36524 ==> c == 3)
    ensures (36524 * c + rest) / 36524 - (36524 * c + rest) / 146_096 == c
  {
  }

  lemma {:induction false} WholeYears(y: int, d: int)
    requires 0 <= d < 365
    ensures (365 * y + d) / 365 == y
  {
  }

  /** The program's day-to-year formula on a day given by its parts. */
  lemma {:induction false} YearFormula(c: int, q: int, r: int, doy: int)
    requires 0 <= c < 4 && 0 <= q < 25 && 0 <= r < 4
    requires 0 <= doy < 365 || (doy == 365 && r == 3 && (q == 24 ==> c == 3))
    ensures var doe := 36524 * c + 1461 * q + 365 * r + doy;
      0 <= doe < 146_097 &&
      YearOfEraDay(doe) == 100 * c + 4 * q + r
  {
    var over := 24 * c + q + 365 * r + doy;
    var late := if over >= 1460 then 1 else 0;
    CyclesBefore(25 * c + q, over);
    CenturiesBefore(c, 1461 * q + 365 * r + doy);
    WholeYears(100 * c + 4 * q + r, doy - late);
  }

  /** The year of the era is recovered from the day of the era. */
  lemma {:induction false} YearOfEra(yoe: int, doy: int)
    requires 0 <= yoe < 400 && 0 <= doy < YearLength(yoe)
    ensures var doe := YearStart(yoe) + doy;
      0 <= doe < 146_097 &&
      YearOfEraDay(doe) == yoe
  {
    var c, q, r := yoe / 100, (yoe % 100) / 4, yoe % 4;
    assert yoe == 100 * c + 4 * q + r;
    SplitYear(c, q, r);
    YearFormula(c, q, r, doy);
  }

  /** Conversely, every day of an era lies in some year of it. */
  lemma {:induction false} DayOfEra(doe: int) returns (yoe: int, doy: int)
    requires 0 <= doe < 146_097
    ensures 0 <= yoe < 400 && 0 <= doy < YearLength(yoe) && doe == YearStart(yoe) + doy
  {
    var c := if doe == 146_096 then 3 else doe / 36524;
    var d1 := doe - 36524 * c;
    var q := if d1 == 36524 then 24 else d1 / 1461;
    var d2 := d1 - 1461 * q;
    var r := if d2 == 1460 then 3 else d2 / 365;
    SplitYear(c, q, r);
    yoe, doy := 100 * c + 4 * q + r, d2 - 365 * r;
  }

  // ----- months of a year that starts on 1 March -----

  /** Length of month `mp` (0 is March) of a year that starts on 1 March. */
  function MonthLength(yoe: int, mp: int): int {
    if mp == 11 then YearLength(yoe) - 337
    else if mp == 1 || mp == 3 || mp == 6 || mp == 8 then 30
    else 31
  }

  lemma {:induction false} MonthOfYear(yoe: int, mp: int, d: int)
    requires 0 <= mp < 12 && 1 <= d <= MonthLength(yoe, mp)
    ensures var doy := (153 * mp + 2) / 5 + d - 1;
      0 <= doy < YearLength(yoe) && (5 * doy + 2) / 153 == mp
  {
  }

  lemma {:induction false} DayOfYear(yoe: int, doy: int) returns (mp: int, d: int)
    requires 0 <= doy < YearLength(yoe)
    ensures 0 <= mp < 12 && 1 <= d <= MonthLength(yoe, mp) && doy == (153 * mp + 2) / 5 + d - 1
  {
    mp := (5 * doy + 2) / 153;
    d := doy - (153 * mp + 2) / 5 + 1;
  }

  // ----- the program computes the calendar -----

  /** A day by its 400-year era, year of the era and month (both counted from 1 March), and day. */
  datatype Parts = Parts(era: int, yoe: int, mp: int, day: int)

  predicate ValidParts(p: Parts) {
    0 <= p.yoe < 400 && 0 <= p.mp < 12 && 1 <= p.day <= MonthLength(p.yoe, p.mp)
  }

  /** Day of the year, from 1 March. */
  function YearDay(p: Parts): int {
    (153 * p.mp + 2) / 5 + p.day - 1
  }

  function DateOf(p: Parts): Date {
    Date(400 * p.era + p.yoe + (if p.mp < 10 then 0 else 1), if p.mp < 10 then p.mp + 3 else p.mp - 9, p.day)
  }

  function DayOf(p: Parts): int {
    p.era * 146_097 + YearStart(p.yoe) + YearDay(p) - 719_468
  }

  function NextParts(p: Parts): Parts {
    if p.day < MonthLength(p.yoe, p.mp) then p.(day := p.day + 1)
    else if p.mp < 11 then Parts(p.era, p.yoe, p.mp + 1, 1)
    else if p.yoe < 399 then Parts(p.era, p.yoe + 1, 0, 1)
    else Parts(p.era + 1, 0, 0, 1)
  }

  lemma {:induction false} Mod4(x: int, q: int)
    ensures (4 * q + x) % 4 == x % 4
  {
  }

  lemma {:induction false} Mod100(x: int, q: int)
    ensures (100 * q + x) % 100 == x % 100
  {
  }

  lemma {:induction false} Mod400(x: int, q: int)
    ensures (400 * q + x) % 400 == x % 400
  {
  }

  lemma {:induction false} LeapIsPeriodic(era: int, y: int)
    ensures IsLeap(400 * era + y) <==> IsLeap(y)
  {
    Mod4(y, 100 * era);
    Mod100(y, 4 * era);
    Mod400(y, era);
  }

  /** The parts of a date are valid exactly when the date is. */
  lemma {:induction false} PartsAreValid(p: Parts)
    requires 0 <= p.yoe < 400 && 0 <= p.mp < 12
    ensures ValidDate(DateOf(p)) <==> ValidParts(p)
  {
    LeapIsPeriodic(p.era, p.yoe + 1);
  }

  lemma {:induction false} PartsOfDate(d: Date) returns (p: Parts)
    requires ValidDate(d)
    ensures ValidParts(p) && DateOf(p) == d
  {
    var y := if d.month <= 2 then d.year - 1 else d.year;
    p := Parts(y / 400, y % 400, if d.month > 2 then d.month - 3 else d.month + 9, d.day);
    PartsAreValid(p);
  }

  lemma {:induction false} PartsInEra(era: int, doe: int) returns (p: Parts)
    requires 0 <= doe < 146_097
    ensures ValidParts(p) && DayOf(p) == era * 146_097 + doe - 719_468
  {
    var yoe, doy := DayOfEra(doe);
    var mp, d := DayOfYear(yoe, doy);
    p := Parts(era, yoe, mp, d);
  }

  lemma {:induction false} PartsOfDay(z: int) returns (p: Parts)
    ensures ValidParts(p) && DayOf(p) == z
  {
    var n := z + 719_468;
    p := PartsInEra(n / 146_097, n % 146_097);
  }

  lemma {:induction false} EraOfYearParts(y: int, era: int, yoe: int)
    requires y == 400 * era + yoe && 0 <= yoe < 400
    ensures EraOfYear(y) == InEra(era, yoe)
  {
    ErasAreFloors(y);
  }

  lemma {:induction false} SinceMarchOfParts(p: Parts)
    requires 0 <= p.mp < 12
    ensures SinceMarch(DateOf(p).month, p.day) == YearDay(p)
  {
  }

  /** `ymd_to_days` of the date with these parts. */
  lemma {:induction false} YmdOfParts(p: Parts)
    requires 0 <= p.yoe < 400 && 0 <= p.mp < 12
    ensures var c := DateOf(p); YmdToDays(c.year, c.month, c.day) == DayOf(p)
  {
    var c := DateOf(p);
    EraOfYearParts(if c.month <= 2 then c.year - 1 else c.year, p.era, p.yoe);
    SinceMarchOfParts(p);
  }

  lemma {:induction false} DateOfYearParts(p: Parts)
    requires ValidParts(p)
    ensures DateOfYearDay(p.yoe + p.era * 400, YearDay(p)) == DateOf(p)
  {
    MonthOfYear(p.yoe, p.mp, p.day);
  }

  lemma {:induction false} DateInEraAt(e: InEra, yoe: int, doy: int)
    requires yoe == YearOfEraDay(e.offset) && doy == e.offset - YearStart(yoe)
    ensures DateInEra(e) == DateOfYearDay(yoe + e.era * 400, doy)
  {
  }

  lemma {:induction false} DateInEraIs(era: int, yoe: int, doy: int)
    requires 0 <= yoe < 400 && 0 <= doy < YearLength(yoe)
    ensures DateInEra(InEra(era, YearStart(yoe) + doy)) == DateOfYearDay(yoe + era * 400, doy)
  {
    YearOfEra(yoe, doy);
    DateInEraAt(InEra(era, YearStart(yoe) + doy), yoe, doy);
  }

  lemma {:induction false} DateInEraOfParts(p: Parts)
    requires ValidParts(p)
    ensures DateInEra(InEra(p.era, YearStart(p.yoe) + YearDay(p))) == DateOf(p)
  {
    MonthOfYear(p.yoe, p.mp, p.day);
    DateInEraIs(p.era, p.yoe, YearDay(p));
    DateOfYearParts(p);
  }

  lemma {:induction false} EraOfParts(p: Parts)
    requires ValidParts(p)
    ensures EraOfDay(DayOf(p) + 719_468) == InEra(p.era, YearStart(p.yoe) + YearDay(p))
  {
    MonthOfYear(p.yoe, p.mp, p.day);
    YearOfEra(p.yoe, YearDay(p));
    ErasAreFloors(DayOf(p) + 719_468);
  }

  /** `days_to_ymd` (before narrowing) of the day with these parts. */
  lemma {:induction false} CivilOfParts(p: Parts)
    requires ValidParts(p)
    ensures CivilFromDays(DayOf(p)) == DateOf(p)
  {
    EraOfParts(p);
    DateInEraOfParts(p);
  }

  /** `ymd_to_days` then `days_to_ymd` (before narrowing) is the identity on every valid date. */
  lemma {:induction false} DateRoundTrip(d: Date)
    requires ValidDate(d)
    ensures CivilFromDays(YmdToDays(d.year, d.month, d.day)) == d
  {
    var p := PartsOfDate(d);
    YmdOfParts(p);
    CivilOfParts(p);
  }

  /** `days_to_ymd` yields a valid date, and `ymd_to_days` maps it back, for every day number. */
  lemma {:induction false} DayRoundTrip(z: int)
    ensures var d := CivilFromDays(z);
      ValidDate(d) && YmdToDays(d.year, d.month, d.day) == z
  {
    var p := PartsOfDay(z);
    CivilOfParts(p);
    PartsAreValid(p);
    YmdOfParts(p);
  }

  lemma {:induction false} NextQuotient4(n: int)
    ensures (n + 1) / 4 == n / 4 + if (n + 1) % 4 == 0 then 1 else 0
  {
  }

  lemma {:induction false} NextQuotient100(n: int)
    ensures (n + 1) / 100 == n / 100 + if (n + 1) % 100 == 0 then 1 else 0
  {
  }

  lemma {:induction false} CenturyIsLeap(n: int)
    requires 0 < n <= 400
    ensures n % 100 == 0 ==> n % 4 == 0
    ensures n % 400 == 0 <==> n == 400
  {
  }

  lemma {:induction false} NextYearStart(yoe: int)
    requires 0 <= yoe < 400
    ensures YearStart(yoe) + YearLength(yoe) == if yoe == 399 then 146_097 else YearStart(yoe + 1)
  {
    NextQuotient4(yoe);
    NextQuotient100(yoe);
    CenturyIsLeap(yoe + 1);
  }

  lemma {:induction false} NextPartsDate(p: Parts)
    requires ValidParts(p)
    ensures ValidParts(NextParts(p)) && DateOf(NextParts(p)) == NextDay(DateOf(p))
  {
    LeapIsPeriodic(p.era, p.yoe + 1);
  }

  lemma {:induction false} NextPartsDay(p: Parts)
    requires ValidParts(p)
    ensures DayOf(NextParts(p)) == DayOf(p) + 1
  {
    NextYearStart(p.yoe);
  }

  /** The day count of the next calendar day is one more. */
  lemma {:induction false} NextDayCountsOne(d: Date)
    requires ValidDate(d)
    ensures var n := NextDay(d);
      ValidDate(n) && YmdToDays(n.year, n.month, n.day) == YmdToDays(d.year, d.month, d.day) + 1
  {
    var p := PartsOfDate(d);
    NextPartsDate(p);
    NextPartsDay(p);
    PartsAreValid(NextParts(p));
    YmdOfParts(p);
    YmdOfParts(NextParts(p));
  }

  lemma {:induction false} DateOfItsDay(d: Date, z: int)
    requires ValidDate(d) && YmdToDays(d.year, d.month, d.day) == z
    ensures CivilFromDays(z) == d
  {
    DateRoundTrip(d);
  }

  lemma {:induction false} DayOfSuccessor(z: int, d: Date)
    requires ValidDate(d) && YmdToDays(d.year, d.month, d.day) == z
    ensures CivilFromDays(z + 1) == NextDay(d)
  {
    NextDayCountsOne(d);
    DateOfItsDay(NextDay(d), z + 1);
  }

  lemma {:induction false} Epoch()
    ensures CivilFromDays(0) == Date(1970, 1, 1)
  {
    var p := Parts(4, 369, 10, 1);
    assert DayOf(p) == 0 && DateOf(p) == Date(1970, 1, 1);
    CivilOfParts(p);
  }

  /** Day 0 is 1970-01-01 and each following day number is the calendar successor: the
      program computes the proleptic Gregorian calendar on all day numbers. */
  lemma {:induction false} ProlepticGregorian(z: int)
    ensures CivilFromDays(0) == Date(1970, 1, 1)
    ensures CivilFromDays(z + 1) == NextDay(CivilFromDays(z))
  {
    Epoch();
    DayRoundTrip(z);
    DayOfSuccessor(z, CivilFromDays(z));
  }

  // ----- the 32-bit year -----

  /** First day of year 0, and first day of year 2^32. */
  const FIRST_DAY := -719_528
  const END_DAY := 1568703873082

  /** Day number of 1 March of year `y`, counted from 1 March of year 0. */
  function MarchFirst(y: int): int {
    y / 400 * 146_097 + YearStart(y % 400)
  }

  lemma {:induction false} NextMarchFirst(y: int)
    ensures MarchFirst(y + 1) == MarchFirst(y) + YearLength(y % 400)
  {
    var era, yoe := y / 400, y % 400;
    NextYearStart(yoe);
    assert y == 400 * era + yoe;
    assert (y + 1) / 400 == if yoe == 399 then era + 1 else era;
  }

  /** A later year has a later first of March, by at least a year. */
  lemma {:induction false} YearsGrow(y1: int, y2: int)
    requires y1 < y2
    ensures MarchFirst(y1) + 365 <= MarchFirst(y2)
    decreases y2 - y1
  {
    NextMarchFirst(y2 - 1);
    if y1 < y2 - 1 {
      YearsGrow(y1, y2 - 1);
    }
  }

  /** The day count of month `m` and day `d` of year `y`, valid or not. */
  lemma {:induction false} DayCount(y: int, m: int, d: int)
    requires 1 <= m <= 12
    ensures YmdToDays(y, m, d) == MarchFirst(if m <= 2 then y - 1 else y) + SinceMarch(m, d) - 719_468
  {
    var y' := if m <= 2 then y - 1 else y;
    var p := Parts(y' / 400, y' % 400, if m > 2 then m - 3 else m + 9, d);
    assert DateOf(p) == Date(y, m, d);
    YmdOfParts(p);
    SinceMarchOfParts(p);
    assert DayOf(p) == MarchFirst(y') + YearDay(p) - 719_468;
  }

  lemma {:induction false} SinceMarchOf(d: Date)
    requires ValidDate(d)
    ensures d.month > 2 ==> 0 <= SinceMarch(d.month, d.day) < 306
    ensures d.month <= 2 ==> 306 <= SinceMarch(d.month, d.day) < (if IsLeap(d.year) then 366 else 365)
  {
  }

  lemma {:induction false} JanuaryFirst(y: int)
    ensures YmdToDays(y, 1, 1) == MarchFirst(y - 1) + 306 - 719_468
    ensures MarchFirst(y) == MarchFirst(y - 1) + (if IsLeap(y) then 366 else 365)
  {
    DayCount(y, 1, 1);
    NextMarchFirst(y - 1);
    LeapIsPeriodic((y - 1) / 400, (y - 1) % 400 + 1);
  }

  lemma {:induction false} LaterYearLaterDay(y1: int, y2: int, m: int, d: int)
    requires y1 < y2 && 1 <= m <= 12
    ensures YmdToDays(y1, m, d) < YmdToDays(y2, m, d)
  {
    DayCount(y1, m, d);
    DayCount(y2, m, d);
    var c := if m <= 2 then 1 else 0;
    YearsGrow(y1 - c, y2 - c);
  }

  lemma {:induction false} AfterNewYear(d: Date)
    requires ValidDate(d)
    ensures YmdToDays(d.year, 1, 1) <= YmdToDays(d.year, d.month, d.day)
  {
    JanuaryFirst(d.year);
    SinceMarchOf(d);
    DayCount(d.year, d.month, d.day);
  }

  lemma {:induction false} BeforeNextYear(d: Date)
    requires ValidDate(d)
    ensures YmdToDays(d.year, d.month, d.day) < YmdToDays(d.year + 1, 1, 1)
  {
    JanuaryFirst(d.year);
    JanuaryFirst(d.year + 1);
    SinceMarchOf(d);
    DayCount(d.year, d.month, d.day);
  }

  lemma {:induction false} NewYearsGrow(y1: int, y2: int)
    requires y1 <= y2
    ensures YmdToDays(y1, 1, 1) <= YmdToDays(y2, 1, 1)
  {
    if y1 < y2 {
      LaterYearLaterDay(y1, y2, 1, 1);
    }
  }

  lemma {:induction false} EarlierYear(d: Date, bound: int)
    requires ValidDate(d) && d.year < bound
    ensures YmdToDays(d.year, d.month, d.day) < YmdToDays(bound, 1, 1)
  {
    BeforeNextYear(d);
    NewYearsGrow(d.year + 1, bound);
  }

  lemma {:induction false} NotEarlierYear(d: Date, bound: int)
    requires ValidDate(d) && bound <= d.year
    ensures YmdToDays(bound, 1, 1) <= YmdToDays(d.year, d.month, d.day)
  {
    AfterNewYear(d);
    NewYearsGrow(bound, d.year);
  }

  /** A date precedes year `bound` exactly when its day number precedes 1 January of it. */
  lemma {:induction false} BeforeYear(d: Date, bound: int)
    requires ValidDate(d)
    ensures d.year < bound <==> YmdToDays(d.year, d.month, d.day) < YmdToDays(bound, 1, 1)
  {
    if d.year < bound {
      EarlierYear(d, bound);
    } else {
      NotEarlierYear(d, bound);
    }
  }

  lemma {:induction false} Boundaries()
    ensures YmdToDays(0, 1, 1) == FIRST_DAY && YmdToDays(LIMIT32, 1, 1) == END_DAY
  {
  }

  /** Exactly the day numbers in FIRST_DAY..END_DAY have a year that fits 32 bits. */
  lemma {:induction false} YearFits(d: Date, z: int)
    requires ValidDate(d) && YmdToDays(d.year, d.month, d.day) == z
    ensures 0 <= d.year < LIMIT32 <==> FIRST_DAY <= z < END_DAY
  {
    Boundaries();
    BeforeYear(d, 0);
    BeforeYear(d, LIMIT32);
  }

  /** Another year with the same month and day is another day number. */
  lemma {:induction false} OtherYearOtherDay(y1: int, y2: int, m: int, d: int)
    requires 1 <= m <= 12
    ensures YmdToDays(y1, m, d) == YmdToDays(y2, m, d) <==> y1 == y2
  {
    if y1 < y2 {
      LaterYearLaterDay(y1, y2, m, d);
    } else if y2 < y1 {
      LaterYearLaterDay(y2, y1, m, d);
    }
  }

  /** `ymd_to_days(days_to_ymd(z)) == z` exactly on the days whose year fits 32 bits; outside
      them the narrowed year is another year and the round trip is lost. */
  lemma {:induction false} NarrowedDayRoundTrip(z: int)
    ensures var d := DaysToYmd(z);
      YmdToDays(d.year, d.month, d.day) == z <==> FIRST_DAY <= z < END_DAY
  {
    DayRoundTrip(z);
    NarrowedDate(CivilFromDays(z), z);
  }

  lemma {:induction false} Narrow(y: int)
    ensures y % LIMIT32 == y <==> 0 <= y < LIMIT32
  {
  }

  lemma {:induction false} NarrowedDate(c: Date, z: int)
    requires ValidDate(c) && YmdToDays(c.year, c.month, c.day) == z
    ensures YmdToDays(c.year % LIMIT32, c.month, c.day) == z <==> FIRST_DAY <= z < END_DAY
  {
    Narrow(c.year);
    OtherYear(c, z, c.year % LIMIT32);
  }

  lemma {:induction false} OtherYear(c: Date, z: int, y: int)
    requires ValidDate(c) && YmdToDays(c.year, c.month, c.day) == z
    requires y == c.year <==> 0 <= c.year < LIMIT32
    ensures YmdToDays(y, c.month, c.day) == z <==> FIRST_DAY <= z < END_DAY
  {
    YearFits(c, z);
    OtherYearOtherDay(y, c.year, c.month, c.day);
  }

  lemma {:induction false} TimeOfDay(t: int)
    requires 0 <= t < SECS_PER_DAY
    ensures t / 3600 * 3600 + (t % 3600) / 60 * 60 + t % 60 == t
  {
  }

  lemma {:induction false} SecsParts(z: int, h: int, mi: int, s: int)
    requires 0 <= h < 24 && 0 <= mi < 60 && 0 <= s < 60
    ensures var secs := z * SECS_PER_DAY + h * 3600 + mi * 60 + s;
      var t := secs % SECS_PER_DAY;
      secs / SECS_PER_DAY == z && t / 3600 == h && (t % 3600) / 60 == mi && t % 60 == s
  {
    var t := h * 3600 + mi * 60 + s;
    assert (z * SECS_PER_DAY + t) / SECS_PER_DAY == z;
    assert (z * SECS_PER_DAY + t) % SECS_PER_DAY == t;
  }

  /** The seconds round trip holds exactly when the day does. */
  lemma {:induction false} SecsRoundTrip(secs: int)
    ensures SecsFromUtcComponents(UtcComponents(secs)) == secs <==> FIRST_DAY <= secs / SECS_PER_DAY < END_DAY
  {
    NarrowedDayRoundTrip(secs / SECS_PER_DAY);
    TimeOfDay(secs % SECS_PER_DAY);
  }

  lemma {:induction false} NarrowInRange(d: Date)
    requires 0 <= d.year < LIMIT32
    ensures d.(year := d.year % LIMIT32) == d
  {
  }

  lemma {:induction false} NarrowedDateRoundTrip(d: Date)
    requires ValidDate(d) && 0 <= d.year < LIMIT32
    ensures DaysToYmd(YmdToDays(d.year, d.month, d.day)) == d
  {
    DateRoundTrip(d);
    NarrowInRange(d);
  }

  lemma {:induction false} ComponentsOfSecs(c: Components, z: int, secs: int)
    requires DaysToYmd(z) == c.date && secs == z * SECS_PER_DAY + c.hour * 3600 + c.minute * 60 + c.second
    requires 0 <= c.hour < 24 && 0 <= c.minute < 60 && 0 <= c.second < 60
    ensures UtcComponents(secs) == c
  {
    SecsParts(z, c.hour, c.minute, c.second);
  }

  /** And the other way round, for every valid date and time of day with a 32-bit year. */
  lemma {:induction false} ComponentsRoundTrip(c: Components)
    requires ValidDate(c.date) && 0 <= c.date.year < LIMIT32
    requires 0 <= c.hour < 24 && 0 <= c.minute < 60 && 0 <= c.second < 60
    ensures UtcComponents(SecsFromUtcComponents(c)) == c
  {
    NarrowedDateRoundTrip(c.date);
    ComponentsOfSecs(c, YmdToDays(c.date.year, c.date.month, c.date.day), SecsFromUtcComponents(c));
  }

  // ----- the clock -----

  /** The next second on a 24-hour clock. */
  function NextTime(hour: int, minute: int, second: int): (int, int, int) {
    if second < 59 then (hour, minute, second + 1)
    else if minute < 59 then (hour, minute + 1, 0)
    else if hour < 23 then (hour + 1, 0, 0)
    else (0, 0, 0)
  }

  function TimeOf(c: Components): (int, int, int) { (c.hour, c.minute, c.second) }

  /** A time of day from its parts, and back. */
  lemma {:induction false} TimeParts(h: int, mi: int, s: int)
    requires 0 <= h && 0 <= mi < 60 && 0 <= s < 60
    ensures var t := h * 3600 + mi * 60 + s;
      t / 3600 == h && (t % 3600) / 60 == mi && t % 60 == s
  {
  }

  lemma {:induction false} TimeInRange(t: int)
    requires 0 <= t < SECS_PER_DAY
    ensures 0 <= t / 3600 < 24 && 0 <= (t % 3600) / 60 < 60 && 0 <= t % 60 < 60
    ensures t == t / 3600 * 3600 + (t % 3600) / 60 * 60 + t % 60
  {
    TimeOfDay(t);
  }

  lemma {:induction false} NextOfDay(t: int)
    requires 0 <= t < SECS_PER_DAY - 1
    ensures ((t + 1) / 3600, ((t + 1) % 3600) / 60, (t + 1) % 60) == NextTime(t / 3600, (t % 3600) / 60, t % 60)
  {
    TimeInRange(t);
    var n := NextTime(t / 3600, (t % 3600) / 60, t % 60);
    TimeParts(n.0, n.1, n.2);
  }

  lemma {:induction false} NextSecond(secs: int)
    ensures var d, t := secs / SECS_PER_DAY, secs % SECS_PER_DAY;
      if t == SECS_PER_DAY - 1 then (secs + 1) / SECS_PER_DAY == d + 1 && (secs + 1) % SECS_PER_DAY == 0
      else (secs + 1) / SECS_PER_DAY == d && (secs + 1) % SECS_PER_DAY == t + 1
  {
  }

  /** The date of the components of a second, before the year is narrowed. */
  function DateAt(secs: int): Date {
    CivilFromDays(secs / SECS_PER_DAY)
  }

  function ClockOf(t: int): (int, int, int) { (t / 3600, (t % 3600) / 60, t % 60) }

  lemma {:induction false} LastSecond(t: int)
    requires 0 <= t < SECS_PER_DAY
    ensures ClockOf(t) == (23, 59, 59) <==> t == SECS_PER_DAY - 1
    ensures ClockOf(0) == (0, 0, 0)
  {
    TimeInRange(t);
  }

  lemma {:induction false} ClockMoves(secs: int)
    ensures var c := ClockOf(secs % SECS_PER_DAY);
      ClockOf((secs + 1) % SECS_PER_DAY) == NextTime(c.0, c.1, c.2)
  {
    var t := secs % SECS_PER_DAY;
    NextSecond(secs);
    LastSecond(t);
    if t < SECS_PER_DAY - 1 {
      NextOfDay(t);
    }
  }

  lemma {:induction false} DateMoves(secs: int)
    ensures DateAt(secs + 1)
            == if ClockOf(secs % SECS_PER_DAY) == (23, 59, 59) then NextDay(DateAt(secs)) else DateAt(secs)
  {
    NextSecond(secs);
    LastSecond(secs % SECS_PER_DAY);
    ProlepticGregorian(secs / SECS_PER_DAY);
  }

  lemma {:induction false} ComponentsAre(secs: int)
    ensures TimeOf(UtcComponents(secs)) == ClockOf(secs % SECS_PER_DAY)
    ensures UtcComponents(secs).date == DateAt(secs).(year := DateAt(secs).year % LIMIT32)
  {
  }

  lemma {:induction false} FirstSecond()
    ensures UtcComponents(0) == Components(Date(1970, 1, 1), 0, 0, 0)
  {
    Epoch();
    ComponentsAre(0);
    LastSecond(0);
  }

  /** Second 0 is midnight of 1 January 1970, each next second advances the clock by one, and the date
      moves to its calendar successor exactly when the clock passes midnight; the year is narrowed to
      32 bits. */
  lemma {:induction false} ClockTicks(secs: int)
    ensures UtcComponents(0) == Components(Date(1970, 1, 1), 0, 0, 0)
    ensures var c := UtcComponents(secs);
      && TimeOf(UtcComponents(secs + 1)) == NextTime(c.hour, c.minute, c.second)
      && DateAt(secs + 1) == (if TimeOf(c) == (23, 59, 59) then NextDay(DateAt(secs)) else DateAt(secs))
      && c.date == DateAt(secs).(year := DateAt(secs).year % LIMIT32)
  {
    FirstSecond();
    ComponentsAre(secs);
    ComponentsAre(secs + 1);
    ClockMoves(secs);
    DateMoves(secs);
  }
}
