/** Git timestamps: day numbers to calendar dates (Hinnant's algorithm), against a calendar counted day by day. */
module Calendar {
  type u32 = x: int | 0 <= x < 0x1_0000_0000

  /** Rust's `/` on signed integers truncates toward zero. */
  function TruncDiv(a: int, b: int): int
    requires b > 0
  {
    if a >= 0 then a / b else -(-a / b)
  }

  datatype Date = Date(year: int, month: int, day: int)

  /** Leap years of the proleptic Gregorian calendar (Appendix C of RFC 3339). */
  predicate Leap(year: int) {
    year % 4 == 0 && (year % 100 != 0 || year % 400 == 0)
  }

  /** Month lengths (section 5.7 of RFC 3339). */
  function DaysInMonth(year: int, month: int): int {
    if month == 2 then (if Leap(year) then 29 else 28) else if month in {4, 6, 9, 11} then 30 else 31
  }

  predicate Valid(date: Date) {
    1 <= date.month <= 12 && 1 <= date.day <= DaysInMonth(date.year, date.month)
  }

  /** The next calendar day. */
  function Successor(date: Date): Date {
    if date.day < DaysInMonth(date.year, date.month) then date.(day := date.day + 1)
    else if date.month < 12 then Date(date.year, date.month + 1, 1)
    else Date(date.year + 1, 1, 1)
  }

  function YearLength(year: int): int {
    if Leap(year) then 366 else 365
  }

  /** Days from 1 January 1970 to 1 January of `year`, year by year. */
  function DaysBeforeYear(year: int): int
    decreases if year >= 1970 then year - 1970 else 1970 - year
  {
    if year == 1970 then 0
    else if year > 1970 then DaysBeforeYear(year - 1) + YearLength(year - 1)
    else DaysBeforeYear(year + 1) - YearLength(year)
  }

  /** Days of `year` before the first of `month`, month by month. */
  function DaysBeforeMonth(year: int, month: int): int
    requires 1 <= month <= 12
  {
    if month == 1 then 0 else DaysBeforeMonth(year, month - 1) + DaysInMonth(year, month - 1)
  }

  /** Days since 1 January 1970, counted on the calendar. */
  function DayNumber(date: Date): int
    requires Valid(date)
  {
    DaysBeforeYear(date.year) + DaysBeforeMonth(date.year, date.month) + date.day - 1
  }

  /** `days_to_ymd`. The `u32` intermediate values show that no unsigned subtraction underflows. */
  function DaysToYmd(days: int): Date {
    var z := days + 719468;
    var era := Era(z);
    EraFloors(z);
    DateInEra(era, z - era * 146097)
  }

  function Era(z: int): int {
    TruncDiv(if z >= 0 then z else z - 146096, 146097)
  }

  /** The rest of `days_to_ymd`, from the era and the day of the era on. */
  function DateInEra(era: int, doe: u32): Date
    requires doe < 146097
  {
    YearOfEraFits(doe);
    var lessLeaps: u32 := doe - doe / 1460;
    var moreCenturies: u32 := lessLeaps + doe / 36524;
    var lessEra: u32 := moreCenturies - doe / 146096;
    var yoe: u32 := lessEra / 365;
    var y := yoe + era * 400;
    var before: u32 := 365 * yoe + yoe / 4 - yoe / 100;
    MarchDate(y, doe - before)
  }

  /** Its last lines: the date of day `doy` of the year that begins with March of `y`. */
  function MarchDate(y: int, doy: u32): Date
    requires doy <= 365
  {
    var mp: u32 := (5 * doy + 2) / 153;
    var d: u32 := doy - (153 * mp + 2) / 5 + 1;
    var m: u32 := if mp < 10 then mp + 3 else mp - 9;
    Date(if m <= 2 then y + 1 else y, m, d)
  }

  /** The shifted truncating division is a floor division. */
  lemma EraFloors(z: int)
    ensures 0 <= z - Era(z) * 146097 < 146097
  {
  }

  /** Days of an era before March-based year `yoe`. */
  function BeforeYearOfEra(yoe: int): int {
    365 * yoe + yoe / 4 - yoe / 100
  }

  function YearOfEra(doe: int): int {
    (doe - doe / 1460 + doe / 36524 - doe / 146096) / 365
  }

  /** The era is split into centuries `c`, four-year cycles `q`, years `a` and days `t`. */
  lemma YearOfEraParts(c: int, q: int, a: int, t: int)
    requires 0 <= c <= 3 && 0 <= q <= 24 && 0 <= a <= 3
    requires 0 <= t <= 365 && (t == 365 ==> a == 3 && q < 24)
    ensures YearOfEra(36524 * c + 1461 * q + 365 * a + t) == 100 * c + 4 * q + a
    ensures BeforeYearOfEra(100 * c + 4 * q + a) == 36524 * c + 1461 * q + 365 * a
    ensures t == 365 ==> Leap(100 * c + 4 * q + a + 1)
  {
    var s := 365 * a + t;
    var doe := 36524 * c + 1461 * q + s;
    var e := (24 * c + q + s) / 1460;
    DayDivisions(c, q, s);
    assert doe - doe / 1460 + doe / 36524 - doe / 146096 == 365 * (100 * c + 4 * q + a) + (t - e);
    assert 0 <= t - e < 365;
    BeforeParts(c, q, a);
  }

  lemma DayDivisions(c: int, q: int, s: int)
    requires 0 <= c <= 3 && 0 <= q <= 24 && 0 <= s <= 1460 && (q == 24 ==> s < 1460)
    ensures var doe := 36524 * c + 1461 * q + s;
      && doe / 1460 == 25 * c + q + (24 * c + q + s) / 1460
      && doe / 36524 == c && doe / 146096 == 0
  {
    var doe := 36524 * c + 1461 * q + s;
    assert doe == 1460 * (25 * c + q) + (24 * c + q + s);
    assert 0 <= 1461 * q + s < 36524;
  }

  lemma BeforeParts(c: int, q: int, a: int)
    requires 0 <= c <= 3 && 0 <= q <= 24 && 0 <= a <= 3
    ensures BeforeYearOfEra(100 * c + 4 * q + a) == 36524 * c + 1461 * q + 365 * a
    ensures a == 3 && q < 24 ==> Leap(100 * c + 4 * q + a + 1)
  {
    assert (100 * c + 4 * q + a) / 4 == 25 * c + q && (100 * c + 4 * q + a) / 100 == c;
  }

  /** The corrected quotient is the year whose days contain `doe`; only a leap year has a 366th day. */
  lemma YearOfEraFits(doe: int)
    requires 0 <= doe < 146097
    ensures var yoe := YearOfEra(doe);
      && 0 <= yoe < 400
      && 0 <= doe - BeforeYearOfEra(yoe) <= 365
      && (doe - BeforeYearOfEra(yoe) == 365 ==> Leap(yoe + 1))
  {
    if doe == 146096 {
      assert YearOfEra(doe) == 399;
    } else {
      var c := doe / 36524;
      var r := doe - 36524 * c;
      var q := r / 1461;
      var s := r - 1461 * q;
      var a := if s == 1460 then 3 else s / 365;
      YearOfEraParts(c, q, a, s - 365 * a);
    }
  }

  function LeapsThrough(year: int): int {
    year / 4 - year / 100 + year / 400
  }

  lemma DivStep(year: int, k: int)
    requires k > 1
    ensures year / k - (year - 1) / k == if year % k == 0 then 1 else 0
  {
    var q, r := year / k, year % k;
    assert year == k * q + r;
    if r == 0 {
      assert year - 1 == k * (q - 1) + (k - 1);
      FloorUnique(year - 1, k, q - 1, k - 1);
    } else {
      assert year - 1 == k * q + (r - 1);
      FloorUnique(year - 1, k, q, r - 1);
    }
  }

  lemma FloorUnique(n: int, k: int, q: int, r: int)
    requires k > 0 && n == k * q + r && 0 <= r < k
    ensures n / k == q
  {
    var d := n / k - q;
    assert n == k * (n / k) + n % k;
    assert k * d == r - n % k;
    Multiple(k, d);
  }

  lemma Multiple(k: int, d: int)
    requires k > 0
    ensures d >= 1 ==> k * d >= k
    ensures d <= -1 ==> k * d <= -k
  {
  }

  lemma LeapStep(year: int)
    ensures LeapsThrough(year) - LeapsThrough(year - 1) == if Leap(year) then 1 else 0
  {
    DivStep(year, 4);
    DivStep(year, 100);
    DivStep(year, 400);
    assert year % 100 == 0 ==> year % 4 == 0;
    assert year % 400 == 0 ==> year % 100 == 0;
  }

  lemma {:induction false} DaysBeforeYearClosed(year: int)
    ensures DaysBeforeYear(year) == 365 * (year - 1970) + LeapsThrough(year - 1) - 477
    decreases if year >= 1970 then year - 1970 else 1970 - year
  {
    if year > 1970 {
      DaysBeforeYearClosed(year - 1);
      LeapStep(year - 1);
    } else if year < 1970 {
      DaysBeforeYearClosed(year + 1);
      LeapStep(year);
    }
  }

  /** The month and day steps place a March-based day of the year on the calendar. */
  lemma MonthAndDayFit(year: int, doy: int)
    requires 0 <= doy <= 365 && (doy == 365 ==> Leap(year + 1))
    ensures var mp := (5 * doy + 2) / 153;
      var d := doy - (153 * mp + 2) / 5 + 1;
      && 0 <= mp <= 11
      && (mp < 10 ==>
        Valid(Date(year, mp + 3, d))
        && DaysBeforeMonth(year, mp + 3) + d - 1 == doy + 59 + (if Leap(year) then 1 else 0))
      && (mp >= 10 ==> Valid(Date(year + 1, mp - 9, d)) && DaysBeforeMonth(year + 1, mp - 9) + d - 1 == doy - 306)
  {
    MonthStarts(year);
    MonthStarts(year + 1);
  }

  lemma MonthStarts(year: int)
    ensures DaysBeforeMonth(year, 1) == 0 && DaysBeforeMonth(year, 2) == 31
    ensures forall m :: 3 <= m <= 12 ==>
      DaysBeforeMonth(year, m) == 59 + (if Leap(year) then 1 else 0) + (153 * (m - 3) + 2) / 5
  {
    var leap := if Leap(year) then 1 else 0;
    assert DaysBeforeMonth(year, 2) == 31;
    assert DaysBeforeMonth(year, 3) == 59 + leap;
    assert DaysBeforeMonth(year, 4) == 90 + leap;
    assert DaysBeforeMonth(year, 5) == 120 + leap;
    assert DaysBeforeMonth(year, 6) == 151 + leap;
    assert DaysBeforeMonth(year, 7) == 181 + leap;
    assert DaysBeforeMonth(year, 8) == 212 + leap;
    assert DaysBeforeMonth(year, 9) == 243 + leap;
    assert DaysBeforeMonth(year, 10) == 273 + leap;
    assert DaysBeforeMonth(year, 11) == 304 + leap;
    assert DaysBeforeMonth(year, 12) == 334 + leap;
  }

  lemma DaysToYmdParts(days: int) returns (era: int, yoe: int, doy: int)
    ensures 0 <= yoe < 400 && 0 <= doy <= 365 && (doy == 365 ==> Leap(yoe + 1))
    ensures days + 719468 == era * 146097 + BeforeYearOfEra(yoe) + doy
    ensures DaysToYmd(days) == MarchDate(yoe + era * 400, doy)
  {
    var doe: u32;
    era, doe := EraParts(days);
    yoe, doy := DateInEraParts(era, doe);
  }

  lemma EraParts(days: int) returns (era: int, doe: u32)
    ensures doe < 146097 && days + 719468 == era * 146097 + doe
    ensures DaysToYmd(days) == DateInEra(era, doe)
  {
    EraFloors(days + 719468);
    era := Era(days + 719468);
    doe := days + 719468 - era * 146097;
  }

  lemma DateInEraParts(era: int, doe: u32) returns (yoe: int, doy: int)
    requires doe < 146097
    ensures 0 <= yoe < 400 && 0 <= doy <= 365 && (doy == 365 ==> Leap(yoe + 1))
    ensures doe == BeforeYearOfEra(yoe) + doy
    ensures DateInEra(era, doe) == MarchDate(yoe + era * 400, doy)
  {
    YearOfEraFits(doe);
    yoe := YearOfEra(doe);
    doy := doe - BeforeYearOfEra(yoe);
  }

  /** For every day number, negative ones included, the result is a real calendar date with exactly that day number. */
  lemma DaysToYmdIsExact(days: int)
    ensures Valid(DaysToYmd(days))
    ensures DayNumber(DaysToYmd(days)) == days
  {
    var era, yoe, doy := DaysToYmdParts(days);
    MarchDateIsExact(era, yoe, doy);
  }

  lemma MarchDateIsExact(era: int, yoe: int, doy: int)
    requires 0 <= yoe < 400 && 0 <= doy <= 365 && (doy == 365 ==> Leap(yoe + 1))
    ensures Valid(MarchDate(yoe + era * 400, doy))
    ensures DayNumber(MarchDate(yoe + era * 400, doy)) == era * 146097 + BeforeYearOfEra(yoe) + doy - 719468
  {
    LeapShift(yoe + 1, era);
    assert Leap(yoe + era * 400 + 1) <==> Leap(yoe + 1) by { assert yoe + era * 400 + 1 == yoe + 1 + era * 400; }
    MonthAndDayFit(yoe + era * 400, doy);
    MarchBasedDayNumber(era, yoe, doy);
  }

  lemma LeapShift(year: int, era: int)
    ensures Leap(year + era * 400) <==> Leap(year)
  {
    ModShift(year, 4, 100 * era);
    ModShift(year, 100, 4 * era);
    ModShift(year, 400, era);
  }

  lemma ModShift(n: int, k: int, m: int)
    requires k > 0
    ensures (n + k * m) % k == n % k
  {
    assert n + k * m == k * (n / k + m) + n % k;
    FloorUnique(n + k * m, k, n / k + m, n % k);
  }

  /** Days before the March-based year, written out. */
  lemma MarchBasedDayNumber(era: int, yoe: int, doy: int)
    requires 0 <= yoe < 400
    ensures var y := yoe + era * 400;
      && DaysBeforeYear(y) + 59 + (if Leap(y) then 1 else 0) + doy == era * 146097 + BeforeYearOfEra(yoe) + doy - 719468
      && DaysBeforeYear(y + 1) - 306 + doy == era * 146097 + BeforeYearOfEra(yoe) + doy - 719468
  {
    var y := yoe + era * 400;
    DaysBeforeYearClosed(y);
    DaysBeforeYearClosed(y + 1);
    LeapStep(y);
    LeapsOfEra(yoe, era);
  }

  lemma LeapsOfEra(yoe: int, era: int)
    requires 0 <= yoe < 400
    ensures LeapsThrough(yoe + era * 400) == 97 * era + yoe / 4 - yoe / 100
  {
    FloorUnique(yoe + era * 400, 4, yoe / 4 + 100 * era, yoe % 4);
    FloorUnique(yoe + era * 400, 100, yoe / 100 + 4 * era, yoe % 100);
    FloorUnique(yoe + era * 400, 400, era, yoe);
  }

  lemma SuccessorCounts(date: Date)
    requires Valid(date)
    ensures Valid(Successor(date)) && DayNumber(Successor(date)) == DayNumber(date) + 1
  {
    if date.month == 12 && date.day == 31 {
      MonthStarts(date.year);
      YearAdds(date.year);
    }
  }

  lemma YearAdds(year: int)
    ensures DaysBeforeYear(year + 1) == DaysBeforeYear(year) + YearLength(year)
  {
    DaysBeforeYearClosed(year);
    DaysBeforeYearClosed(year + 1);
    LeapStep(year);
  }

  lemma {:induction false} YearsGrow(a: int, b: int)
    requires a <= b
    ensures DaysBeforeYear(a) + 365 * (b - a) <= DaysBeforeYear(b)
    decreases b - a
  {
    if a < b {
      YearsGrow(a, b - 1);
      YearAdds(b - 1);
    }
  }

  lemma DayOfYearInYear(date: Date)
    requires Valid(date)
    ensures 0 <= DaysBeforeMonth(date.year, date.month) + date.day - 1 < YearLength(date.year)
  {
    MonthStarts(date.year);
  }

  /** Two valid dates with the same day number are the same date. */
  lemma DateUnique(a: Date, b: Date)
    requires Valid(a) && Valid(b) && DayNumber(a) == DayNumber(b)
    ensures a == b
  {
    DayOfYearInYear(a);
    DayOfYearInYear(b);
    if a.year < b.year {
      YearAdds(a.year);
      YearsGrow(a.year + 1, b.year);
    } else if b.year < a.year {
      YearAdds(b.year);
      YearsGrow(b.year + 1, a.year);
    } else {
      MonthsGrow(a.year, a.month, b.month);
      MonthsGrow(a.year, b.month, a.month);
    }
  }

  lemma {:induction false} MonthsGrow(year: int, a: int, b: int)
    requires 1 <= a <= 12 && 1 <= b <= 12
    ensures a < b ==> DaysBeforeMonth(year, a) + DaysInMonth(year, a) <= DaysBeforeMonth(year, b)
    decreases b
  {
    if a + 1 < b {
      MonthsGrow(year, a, b - 1);
    }
  }

  /** The inverse direction: every valid date is recovered from its day number. */
  lemma YmdInvertsDayNumber(date: Date)
    requires Valid(date)
    ensures DaysToYmd(DayNumber(date)) == date
  {
    DaysToYmdIsExact(DayNumber(date));
    DateUnique(DaysToYmd(DayNumber(date)), date);
  }

  /** A function that gives every day number its calendar date. */
  ghost predicate Dates(f: int -> Date) {
    forall days :: Valid(f(days)) && DayNumber(f(days)) == days
  }

  /** Day 0 is 1 January 1970 and each day number's date is followed by its calendar successor. */
  lemma DaysToYmdSuccessor(days: int)
    ensures DaysToYmd(0) == Date(1970, 1, 1)
    ensures DaysToYmd(days + 1) == Successor(DaysToYmd(days))
  {
    YmdDates();
    DatesFollow(DaysToYmd, 0, days);
  }

  lemma YmdDates()
    ensures Dates(DaysToYmd)
  {
    forall n: int
      ensures Valid(DaysToYmd(n)) && DayNumber(DaysToYmd(n)) == n
    {
      DaysToYmdIsExact(n);
    }
  }

  lemma DatesFollow(f: int -> Date, epoch: int, days: int)
    requires Dates(f) && epoch == 0
    ensures f(epoch) == Date(1970, 1, 1)
    ensures f(days + 1) == Successor(f(days))
  {
    DateUnique(f(epoch), Date(1970, 1, 1));
    SuccessorCounts(f(days));
    DateUnique(f(days + 1), Successor(f(days)));
  }

  /** The fields `format_git_timestamp` prints. */
  datatype Stamp = Stamp(
    date: Date, hours: int, minutes: int, seconds: int, plus: bool, offsetHours: int, offsetMinutes: int)

  function FormatGitTimestamp(secs: int, offset: int): Stamp {
    FormatWith(DaysToYmd, secs, offset)
  }

  function FormatWith(dateOf: int -> Date, secs: int, offset: int): Stamp {
    var adjusted := secs + offset * 60;
    StampOf(dateOf(TruncDiv(adjusted, 86400)), adjusted % 86400, offset)
  }

  function StampOf(date: Date, timeOfDay: int, offset: int): Stamp {
    var absolute := if offset >= 0 then offset else -offset;
    Stamp(date, timeOfDay / 3600, timeOfDay % 3600 / 60, timeOfDay % 60, offset >= 0, absolute / 60, absolute % 60)
  }

  /** Seconds since the epoch of the printed local date and time. */
  function LocalSeconds(stamp: Stamp): int
    requires Valid(stamp.date)
  {
    DayNumber(stamp.date) * 86400 + stamp.hours * 3600 + stamp.minutes * 60 + stamp.seconds
  }

  predicate InRange(stamp: Stamp) {
    && Valid(stamp.date)
    && 0 <= stamp.hours < 24 && 0 <= stamp.minutes < 60 && 0 <= stamp.seconds < 60
    && 0 <= stamp.offsetHours && 0 <= stamp.offsetMinutes < 60
  }

  /** The printed fields are in range and the offset is printed exactly. The date and time rebuild the adjusted seconds
      exactly when these are not negative or fall on midnight; in every other case they are one day late, because the
      day is truncated toward zero while the time of day is Euclidean. */
  lemma TimestampRebuilds(secs: int, offset: int)
    ensures var stamp, adjusted := FormatGitTimestamp(secs, offset), secs + offset * 60;
      && InRange(stamp) && (stamp.plus <==> offset >= 0)
      && (if stamp.plus then 1 else -1) * (stamp.offsetHours * 60 + stamp.offsetMinutes) == offset
      && (LocalSeconds(stamp) == adjusted <==> adjusted >= 0 || adjusted % 86400 == 0)
      && (LocalSeconds(stamp) != adjusted ==> LocalSeconds(stamp) == adjusted + 86400)
  {
    YmdDates();
    DatesRebuild(DaysToYmd, secs, offset);
  }

  lemma DatesRebuild(dateOf: int -> Date, secs: int, offset: int)
    requires Dates(dateOf)
    ensures var stamp, adjusted := FormatWith(dateOf, secs, offset), secs + offset * 60;
      && InRange(stamp) && (stamp.plus <==> offset >= 0)
      && (if stamp.plus then 1 else -1) * (stamp.offsetHours * 60 + stamp.offsetMinutes) == offset
      && (LocalSeconds(stamp) == adjusted <==> adjusted >= 0 || adjusted % 86400 == 0)
      && (LocalSeconds(stamp) != adjusted ==> LocalSeconds(stamp) == adjusted + 86400)
  {
    var adjusted := secs + offset * 60;
    StampRebuilds(dateOf(TruncDiv(adjusted, 86400)), adjusted % 86400, offset);
    TruncatedDays(adjusted);
  }

  lemma StampRebuilds(date: Date, time: int, offset: int)
    requires Valid(date) && 0 <= time < 86400
    ensures var stamp := StampOf(date, time, offset);
      && InRange(stamp) && (stamp.plus <==> offset >= 0)
      && (if stamp.plus then 1 else -1) * (stamp.offsetHours * 60 + stamp.offsetMinutes) == offset
      && LocalSeconds(stamp) == DayNumber(date) * 86400 + time
  {
    TimeOfDaySplits(time);
  }

  lemma TimeOfDaySplits(time: int)
    requires 0 <= time < 86400
    ensures time == time / 3600 * 3600 + time % 3600 / 60 * 60 + time % 60
    ensures 0 <= time / 3600 < 24 && 0 <= time % 3600 / 60 < 60
  {
  }

  lemma TruncatedDays(adjusted: int)
    ensures TruncDiv(adjusted, 86400) * 86400 + adjusted % 86400 ==
      adjusted + if adjusted < 0 && adjusted % 86400 != 0 then 86400 else 0
  {
  }

  /** One second before the epoch is printed with the date of the epoch. */
  lemma SecondBeforeEpoch()
    ensures FormatGitTimestamp(-1, 0) == Stamp(Date(1970, 1, 1), 23, 59, 59, true, 0, 0)
  {
    var days, time := TruncDiv(-1, 86400), -1 % 86400;
    assert days == 0 && time == 86399;
    DaysToYmdSuccessor(days);
    LastSecond(Date(1970, 1, 1), time);
  }

  lemma LastSecond(date: Date, time: int)
    requires time == 86399
    ensures StampOf(date, time, 0) == Stamp(date, 23, 59, 59, true, 0, 0)
  {
  }

  predicate Fits64(n: int) {
    -0x8000_0000_0000_0000 <= n < 0x8000_0000_0000_0000
  }

  /** No signed intermediate value of `days_to_ymd` leaves the 64-bit range. */
  predicate DayStepsFit(days: int) {
    var z := days + 719468;
    var era := Era(z);
    && Fits64(z) && (z < 0 ==> Fits64(z - 146096))
    && Fits64(era * 146097) && Fits64(era * 400) && Fits64(DaysToYmd(days).year)
  }

  /** A 64-bit day number overflows nowhere, except that the last 719468 of them overflow at the first addition. */
  lemma DayStepsFitExactly(days: int)
    requires Fits64(days)
    ensures DayStepsFit(days) <==> days + 719468 < 0x8000_0000_0000_0000
  {
    EraFloors(days + 719468);
    YearOfEraFits(days + 719468 - Era(days + 719468) * 146097);
  }

  /** No signed intermediate value of `format_git_timestamp` leaves the 64-bit range. */
  predicate TimestampFits(secs: int, offset: int) {
    Fits64(offset * 60) && Fits64(secs + offset * 60) && DayStepsFit(TruncDiv(secs + offset * 60, 86400))
  }

  /** For 64-bit seconds and a 32-bit offset, only the sum of the two can overflow. */
  lemma TimestampFitsExactly(secs: int, offset: int)
    requires Fits64(secs) && -0x8000_0000 <= offset < 0x8000_0000
    ensures TimestampFits(secs, offset) <==> Fits64(secs + offset * 60)
  {
    if Fits64(secs + offset * 60) {
      DayStepsFitExactly(TruncDiv(secs + offset * 60, 86400));
    }
  }
}
