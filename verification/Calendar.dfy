/** Civil-calendar arithmetic: a date to its Julian day number, and a day number back to a date, as
    two independent closed forms. */
module Calendar {
  import opened Wrappers
  import opened Powers
  import opened MachineIntegers

  const UNIX_EPOCH_JDN: int := 2440588
  const MICROSECONDS_PER_SECOND: I64 := 1000000
  const SECONDS_PER_DAY: I64 := 86400

  datatype Date = Date(year: int, month: int, day: int)

  predicate IsLeap(year: int) { year % 4 == 0 && (year % 100 != 0 || year % 400 == 0) }

  const LENGTHS: seq<int> := [31, 28, 31, 30, 31, 30, 31, 31, 30, 31, 30, 31]
  const CUMULATIVE: seq<int> := [0, 31, 59, 90, 120, 151, 181, 212, 243, 273, 304, 334]

  function MonthLength(year: int, month: int): int
    requires 1 <= month <= 12
  {
    LENGTHS[month - 1] + if month == 2 && IsLeap(year) then 1 else 0
  }

  predicate DateValid(d: Date) {
    1 <= d.month <= 12 && 1 <= d.day <= MonthLength(d.year, d.month)
  }

  /** Truncating division corrected to the floor, as the calendar provider writes it. */
  function FloorDivide(value: int, divisor: int): (q: int)
    requires divisor > 0
    ensures q == value / divisor
  {
    var quotient, remainder := TruncatedQuotient(value, divisor), TruncatedRemainder(value, divisor);
    TruncationToFloor(value, divisor);
    if remainder != 0 && remainder < 0 then quotient - 1 else quotient
  }

  /** gregorian_to_jdn. */
  function ToJdn(d: Date): (r: Option<int>)
    ensures r.Some? <==> DateValid(d)
  {
    if !DateValid(d) then None
    else
      var a := (14 - d.month) / 12;
      var y := d.year + 4800 - a;
      var m := d.month + 12 * a - 3;
      Some(d.day + (153 * m + 2) / 5 + 365 * y + FloorDivide(y, 4) - FloorDivide(y, 100) + FloorDivide(y, 400) - 32045)
  }

  /** Year of a 400-year era from the day of the era. */
  function YearInEra(doe: int): int {
    (doe - doe / 1460 + doe / 36524 - doe / 146096) / 365
  }

  /** Civil date from the March-based year and the day of that year. */
  function FromMarch(marchYear: int, doyMarch: int): Date {
    var mp := (5 * doyMarch + 2) / 153;
    var day := doyMarch - (153 * mp + 2) / 5 + 1;
    var month := mp + if mp < 10 then 3 else -9;
    Date(marchYear + (if month <= 2 then 1 else 0), month, day)
  }

  /** The days-to-date form, on a day number counted from the Unix epoch. */
  function FromDays(days: int): Date {
    var z := days + 719468;
    var era := z / 146097;
    var doe := z - era * 146097;
    var yoe := YearInEra(doe);
    var doyMarch := doe - (365 * yoe + yoe / 4 - yoe / 100);
    FromMarch(yoe + era * 400, doyMarch)
  }

  /** Years counted from March, so that the leap day is the last of its year. */
  function MarchYear(d: Date): int { if d.month <= 2 then d.year - 1 else d.year }

  function MarchMonth(d: Date): int { if d.month <= 2 then d.month + 9 else d.month - 3 }

  /** Days since 1 March of the March year. */
  function MarchDay(d: Date): int { (153 * MarchMonth(d) + 2) / 5 + d.day - 1 }

  /** Days before a March year, counted from 1 March of the year 0. */
  function DaysBeforeYear(y: int): int { 365 * y + y / 4 - y / 100 + y / 400 }

  lemma MarchForm(d: Date)
    requires DateValid(d)
    ensures ToJdn(d).value - UNIX_EPOCH_JDN + 719468 == DaysBeforeYear(MarchYear(d)) + MarchDay(d)
  {
    var y := MarchYear(d);
    assert (14 - d.month) / 12 == if d.month <= 2 then 1 else 0;
    DivModUnique(y + 4800, 4, y / 4 + 1200, y % 4);
    DivModUnique(y + 4800, 100, y / 100 + 48, y % 100);
    DivModUnique(y + 4800, 400, y / 400 + 12, y % 400);
  }

  /** The day within the March year, and the month and day it encodes. */
  lemma MarchDayDecodes(d: Date)
    requires DateValid(d)
    ensures var n := MarchDay(d);
      && 0 <= n <= 365 && (n == 365 ==> IsLeap(d.year) && d.month == 2)
      && (5 * n + 2) / 153 == MarchMonth(d)
      && n - (153 * MarchMonth(d) + 2) / 5 + 1 == d.day
  {
  }

  /** A March year contains a leap day at its end exactly when the following year is leap; within a
      400-year era that is every fourth year but the first three century ends. */
  lemma LeapAtEnd(era: int, c: int, q: int, k: int)
    requires 0 <= c <= 3 && 0 <= q <= 24 && 0 <= k <= 3
    ensures IsLeap(400 * era + 100 * c + 4 * q + k + 1) ==> k == 3 && (q < 24 || c == 3)
  {
    var y := 400 * era + 100 * c + 4 * q + k + 1;
    DivModUnique(y, 4, 100 * era + 25 * c + q + (k + 1) / 4, (k + 1) % 4);
    if k == 3 && q == 24 {
      DivModUnique(y, 100, 4 * era + c + 1, 0);
      DivModUnique(y, 400, era + (c + 1) / 4, 100 * ((c + 1) % 4));
    }
  }

  /** The closed form for the year of the era undoes the day count. */
  lemma YearOfEra(c: int, q: int, k: int, n: int)
    requires 0 <= c <= 3 && 0 <= q <= 24 && 0 <= k <= 3 && 0 <= n <= 365
    requires n == 365 ==> k == 3 && (q < 24 || c == 3)
    ensures var yoe := 100 * c + 4 * q + k;
      var doe := 365 * yoe + yoe / 4 - yoe / 100 + n;
      0 <= doe < 146097 && YearInEra(doe) == yoe
  {
    var yoe := 100 * c + 4 * q + k;
    DivModUnique(yoe, 4, 25 * c + q, k);
    DivModUnique(yoe, 100, c, 4 * q + k);
    YearOfDoe(c, q, k, n, 365 * yoe + yoe / 4 - yoe / 100 + n);
  }

  lemma YearOfDoe(c: int, q: int, k: int, n: int, doe: int)
    requires 0 <= c <= 3 && 0 <= q <= 24 && 0 <= k <= 3 && 0 <= n <= 365
    requires n == 365 ==> k == 3 && (q < 24 || c == 3)
    requires doe == 36524 * c + 1461 * q + 365 * k + n
    ensures 0 <= doe < 146097
    ensures YearInEra(doe) == 100 * c + 4 * q + k
  {
    var rest := 24 * c + q + 365 * k + n;
    var e := if rest >= 1460 then 1 else 0;
    DivModUnique(doe, 1460, 25 * c + q + e, rest - 1460 * e);
    CenturyOfDoe(c, 1461 * q + 365 * k + n, doe);
    DivModUnique(doe - doe / 1460 + c, 365, 100 * c + 4 * q + k, n - e);
  }

  /** Only the very last day of an era is more than a whole number of centuries in. */
  lemma CenturyOfDoe(c: int, inCentury: int, doe: int)
    requires 0 <= c <= 3 && 0 <= inCentury <= 36524 && doe == 36524 * c + inCentury
    requires inCentury == 36524 ==> c == 3
    ensures doe / 36524 - doe / 146096 == c
  {
    if inCentury < 36524 {
      DivModUnique(doe, 36524, c, inCentury);
      DivModUnique(doe, 146096, 0, doe);
    } else {
      DivModUnique(doe, 36524, 4, 0);
      DivModUnique(doe, 146096, 1, 0);
    }
  }

  lemma EraDigits(y: int) returns (era: int, c: int, q: int, k: int)
    ensures 0 <= c <= 3 && 0 <= q <= 24 && 0 <= k <= 3
    ensures y == 400 * era + 100 * c + 4 * q + k
  {
    era := y / 400;
    var yoe := y % 400;
    c, q, k := yoe / 100, yoe % 100 / 4, yoe % 4;
  }

  /** Days-to-date inverts date-to-JDN, on every valid date. */
  lemma FromDaysInvertsToJdn(d: Date)
    requires DateValid(d)
    ensures FromDays(ToJdn(d).value - UNIX_EPOCH_JDN) == d
  {
    var days := ToJdn(d).value - UNIX_EPOCH_JDN;
    var era, yoe := EraOfDate(d, days);
    FromMarchInverts(d);
    hide *;
    FromDaysOfEra(days, era, yoe, MarchDay(d));
  }

  lemma FromDaysOfEra(days: int, era: int, yoe: int, n: int)
    requires var z, doe := days + 719468, 365 * yoe + yoe / 4 - yoe / 100 + n;
      z / 146097 == era && z - era * 146097 == doe && YearInEra(doe) == yoe
    ensures FromDays(days) == FromMarch(yoe + era * 400, n)
  {
    hide YearInEra;
    hide FromMarch;
  }

  /** Era, year of the era and day of the era of a valid date's day number. */
  lemma EraOfDate(d: Date, days: int) returns (era: int, yoe: int)
    requires DateValid(d) && days == ToJdn(d).value - UNIX_EPOCH_JDN
    ensures MarchYear(d) == yoe + era * 400
    ensures var z, doe := days + 719468, 365 * yoe + yoe / 4 - yoe / 100 + MarchDay(d);
      z / 146097 == era && z - era * 146097 == doe && YearInEra(doe) == yoe
  {
    MarchForm(d);
    MarchDayDecodes(d);
    hide *;
    era, yoe := EraOfDay(MarchYear(d), MarchDay(d), d);
  }

  lemma EraOfDay(y: int, n: int, d: Date) returns (era: int, yoe: int)
    requires y == MarchYear(d) && 0 <= n <= 365
    requires n == 365 ==> IsLeap(d.year) && d.month == 2
    ensures y == yoe + era * 400
    ensures var z, doe := DaysBeforeYear(y) + n, 365 * yoe + yoe / 4 - yoe / 100 + n;
      z / 146097 == era && z - era * 146097 == doe && YearInEra(doe) == yoe
  {
    var c, q, k;
    era, c, q, k := EraDigits(y);
    yoe := 100 * c + 4 * q + k;
    LeapAtEnd(era, c, q, k);
    hide IsLeap;
    hide YearInEra;
    hide DaysBeforeYear;
    YearOfEra(c, q, k, n);
    DecodeEra(y, n, era, yoe);
  }

  lemma FromMarchInverts(d: Date)
    requires DateValid(d)
    ensures FromMarch(MarchYear(d), MarchDay(d)) == d
  {
    MarchDayDecodes(d);
    hide MarchDay;
    hide IsLeap;
  }

  lemma DecodeEra(y: int, n: int, era: int, yoe: int)
    requires y == 400 * era + yoe && 0 <= yoe < 400
    requires 0 <= 365 * yoe + yoe / 4 - yoe / 100 + n < 146097
    ensures var z := DaysBeforeYear(y) + n;
      z / 146097 == era && z - era * 146097 == 365 * yoe + yoe / 4 - yoe / 100 + n
  {
    DivModUnique(y, 4, 100 * era + yoe / 4, yoe % 4);
    DivModUnique(y, 100, 4 * era + yoe / 100, yoe % 100);
    DivModUnique(y, 400, era, yoe);
    var z := DaysBeforeYear(y) + n;
    assert z == 146097 * era + (365 * yoe + yoe / 4 - yoe / 100 + n);
    DivModUnique(z, 146097, era, 365 * yoe + yoe / 4 - yoe / 100 + n);
  }

  /** The following calendar day. */
  function NextDay(d: Date): Date
    requires DateValid(d)
  {
    if d.day < MonthLength(d.year, d.month) then Date(d.year, d.month, d.day + 1)
    else if d.month < 12 then Date(d.year, d.month + 1, 1)
    else Date(d.year + 1, 1, 1)
  }

  function PreviousDay(d: Date): Date
    requires DateValid(d)
  {
    if d.day > 1 then Date(d.year, d.month, d.day - 1)
    else if d.month > 1 then Date(d.year, d.month - 1, MonthLength(d.year, d.month - 1))
    else Date(d.year - 1, 12, 31)
  }

  /** A March year is 366 days long exactly when the next civil year is leap. */
  lemma YearLength(y: int)
    ensures DaysBeforeYear(y + 1) - DaysBeforeYear(y) == if IsLeap(y + 1) then 366 else 365
  {
    StepDivision(y, 4);
    StepDivision(y, 100);
    StepDivision(y, 400);
    var era, c, q, k := EraDigits(y + 1);
    DivModUnique(y + 1, 4, 100 * era + 25 * c + q, k);
    DivModUnique(y + 1, 100, 4 * era + c, 4 * q + k);
    DivModUnique(y + 1, 400, era, 100 * c + 4 * q + k);
  }

  lemma StepDivision(y: int, b: int)
    requires b > 1
    ensures (y + 1) / b == y / b + if (y + 1) % b == 0 then 1 else 0
  {
    var q, r := y / b, y % b;
    assert y == q * b + r;
    if r + 1 == b {
      Distribute(q, 1, b);
      DivModUnique(y + 1, b, q + 1, 0);
    } else {
      DivModUnique(y + 1, b, q, r + 1);
    }
  }

  /** The Julian day number rises by exactly one per calendar day. */
  lemma JdnStepsByOne(d: Date)
    requires DateValid(d)
    ensures DateValid(NextDay(d)) && ToJdn(NextDay(d)).value == ToJdn(d).value + 1
  {
    MarchStep(d);
    MarchForm(d);
    MarchForm(NextDay(d));
    hide ToJdn;
    hide DaysBeforeYear;
    YearLength(MarchYear(d));
  }

  lemma MarchStep(d: Date)
    requires DateValid(d)
    ensures DateValid(NextDay(d))
    ensures if d.month == 2 && d.day == MonthLength(d.year, 2)
            then MarchYear(NextDay(d)) == MarchYear(d) + 1 == d.year && MarchDay(NextDay(d)) == 0
              && MarchDay(d) == if IsLeap(d.year) then 365 else 364
            else MarchYear(NextDay(d)) == MarchYear(d) && MarchDay(NextDay(d)) == MarchDay(d) + 1
  {
    hide IsLeap;
  }

  lemma PreviousThenNext(d: Date)
    requires DateValid(d)
    ensures DateValid(PreviousDay(d)) && NextDay(PreviousDay(d)) == d
  {
  }

  /** The Unix epoch is Julian day 2440588. */
  lemma EpochJdn()
    ensures DateValid(Date(1970, 1, 1)) && ToJdn(Date(1970, 1, 1)) == Some(UNIX_EPOCH_JDN) == Some(2440588)
  {
  }

  /** Every day number is the number of some valid date. */
  lemma {:induction false} DateOfJdn(jdn: int) returns (d: Date)
    ensures DateValid(d) && ToJdn(d) == Some(jdn)
    decreases if jdn < UNIX_EPOCH_JDN then UNIX_EPOCH_JDN - jdn else jdn - UNIX_EPOCH_JDN
  {
    EpochJdn();
    hide ToJdn;
    hide IsLeap;
    if jdn == UNIX_EPOCH_JDN {
      d := Date(1970, 1, 1);
    } else if jdn > UNIX_EPOCH_JDN {
      var before := DateOfJdn(jdn - 1);
      JdnStepsByOne(before);
      d := NextDay(before);
    } else {
      var after := DateOfJdn(jdn + 1);
      PreviousThenNext(after);
      d := PreviousDay(after);
      JdnStepsByOne(d);
    }
  }

  /** Date-to-JDN inverts days-to-date, on every day number. */
  lemma ToJdnInvertsFromDays(days: int)
    ensures DateValid(FromDays(days)) && ToJdn(FromDays(days)).value == days + UNIX_EPOCH_JDN
  {
    var d := DateOfJdn(days + UNIX_EPOCH_JDN);
    hide ToJdn;
    hide FromDays;
    FromDaysInvertsToJdn(d);
  }

  /** Days from 1 January, counted month by month; 1 January is day 1. */
  ghost function OrdinalDay(d: Date): int
    requires DateValid(d)
  {
    DaysInMonthsBefore(d.year, d.month) + d.day
  }

  ghost function DaysInMonthsBefore(year: int, month: int): int
    requires 1 <= month <= 12
    decreases month
  {
    if month == 1 then 0 else DaysInMonthsBefore(year, month - 1) + MonthLength(year, month - 1)
  }

  lemma CumulativeIsSum(year: int, month: int)
    requires 1 <= month <= 12
    ensures DaysInMonthsBefore(year, month) == CUMULATIVE[month - 1] + if IsLeap(year) && month > 2 then 1 else 0
  {
    if month > 1 {
      CumulativeIsSum(year, month - 1);
    }
  }

  /** The floor division of the clock formatter. */
  function ClockFloorDivide(value: I64, divisor: I64): (q: int)
    requires divisor > 0
    ensures q == value / divisor
  {
    I64FloorDivMod(value, divisor).value.0
  }

  /** The leap test of the clock formatter, written differently from the calendar provider's. */
  predicate LeapByCases(year: int) { (year % 4 == 0 && year % 100 != 0) || year % 400 == 0 }

  lemma LeapTestsAgree(year: int)
    ensures LeapByCases(year) == IsLeap(year)
  {
    if year % 400 == 0 {
      DivModUnique(year, 4, 100 * (year / 400), 0);
    }
  }

  /** The table lookup at the end of gregorian_day_of_year. */
  function DayOfYear(d: Date): Option<(int, bool)> {
    var leap := LeapByCases(d.year);
    if d.month < 1 || d.month > 12 || d.day < 1 || d.day > 31 then None
    else Some((CUMULATIVE[d.month - 1] + d.day + (if leap && d.month > 2 then 1 else 0), leap))
  }

  /** gregorian_day_of_year. */
  function GregorianDayOfYear(unixMicroseconds: I64): Option<(int, bool)> {
    var seconds := ClockFloorDivide(unixMicroseconds, MICROSECONDS_PER_SECOND);
    var days := ClockFloorDivide(seconds, SECONDS_PER_DAY);
    var z := I64AddChecked(days, 719468);
    if z.None? then None else DayOfYear(FromDays(days))
  }

  lemma DayOfYearTable(d: Date)
    requires DateValid(d)
    ensures DayOfYear(d) == Some((OrdinalDay(d), IsLeap(d.year)))
  {
    CumulativeIsSum(d.year, d.month);
    MonthLengthBound(d.year, d.month);
    hide DaysInMonthsBefore;
    LeapTestsAgree(d.year);
    hide MonthLength;
    hide CUMULATIVE;
    hide LeapByCases;
    hide IsLeap;
  }

  lemma MonthLengthBound(year: int, month: int)
    requires 1 <= month <= 12
    ensures 28 <= MonthLength(year, month) <= 31
  {
    hide IsLeap;
  }

  /** It always succeeds, and reports the ordinal day and leap flag of the civil date of the instant. */
  lemma DayOfYearSucceeds(unixMicroseconds: I64)
    ensures var d := FromDays(unixMicroseconds / 86400000000);
      DateValid(d) && GregorianDayOfYear(unixMicroseconds) == Some((OrdinalDay(d), IsLeap(d.year)))
  {
    FloorTwice(unixMicroseconds);
    var days := unixMicroseconds / 86400000000;
    ToJdnInvertsFromDays(days);
    DayOfYearTable(FromDays(days));
    hide FromDays;
    hide DayOfYear;
    hide OrdinalDay;
    hide IsLeap;
  }

  lemma FloorTwice(v: int)
    ensures v / 1000000 / 86400 == v / 86400000000
  {
    var q, r := v / 1000000, v % 1000000;
    var p, s := q / 86400, q % 86400;
    DivModUnique(v, 86400000000, p, s * 1000000 + r);
  }

  /** The date a JDN was computed from is the date the formatter sees at any instant of that day. */
  lemma OrdinalMatchesDate(d: Date, unixMicroseconds: I64)
    requires DateValid(d) && unixMicroseconds / 86400000000 == ToJdn(d).value - UNIX_EPOCH_JDN
    ensures GregorianDayOfYear(unixMicroseconds) == Some((OrdinalDay(d), IsLeap(d.year)))
    ensures OrdinalDay(d) == ToJdn(d).value - ToJdn(Date(d.year, 1, 1)).value + 1
  {
    FromDaysInvertsToJdn(d);
    DayOfYearSucceeds(unixMicroseconds);
    hide *;
    OrdinalByJdn(d);
  }

  lemma {:induction false} OrdinalByJdn(d: Date)
    requires DateValid(d)
    ensures OrdinalDay(d) == ToJdn(d).value - ToJdn(Date(d.year, 1, 1)).value + 1
    decreases d.month, d.day
  {
    hide ToJdn;
    hide IsLeap;
    if d.month > 1 || d.day > 1 {
      var p := PreviousDay(d);
      PreviousThenNext(d);
      JdnStepsByOne(p);
      OrdinalByJdn(p);
    }
  }

  const MICROSECONDS_PER_DAY: I64 := 86400000000

  /** A phase within the modulus for either sign; the fallback for a failing division is never taken. */
  function PositivePhase(value: I64, modulus: I64): (r: I64)
    requires modulus > 0
    ensures r == value % modulus
  {
    I64FloorDivMod(value, modulus).value.1
  }

  /** infiltratr_temporal_local_microseconds_of_day: reducing both terms first never overflows and gives
      the phase of the exact sum. */
  function LocalMicrosecondsOfDay(unixMicroseconds: I64, utcOffsetSeconds: int): (r: I64)
    requires -0x8000_0000 <= utcOffsetSeconds <= 0x7FFF_FFFF
    ensures r == (unixMicroseconds + utcOffsetSeconds * 1000000) % 86400000000
  {
    var instantPhase := PositivePhase(unixMicroseconds, MICROSECONDS_PER_DAY);
    var offsetPhase := PositivePhase(utcOffsetSeconds * MICROSECONDS_PER_SECOND, MICROSECONDS_PER_DAY);
    SumOfPhases(unixMicroseconds, utcOffsetSeconds * 1000000, 86400000000);
    PositivePhase(instantPhase + offsetPhase, MICROSECONDS_PER_DAY)
  }

  lemma SumOfPhases(a: int, b: int, m: int)
    requires m > 0
    ensures (a % m + b % m) % m == (a + b) % m
  {
    var s := a % m + b % m;
    var q := a / m + b / m + s / m;
    assert a == (a / m) * m + a % m && b == (b / m) * m + b % m && s == (s / m) * m + s % m;
    Distribute(a / m + b / m, s / m, m);
    Distribute(a / m, b / m, m);
    DivModUnique(a + b, m, q, s % m);
  }
}
