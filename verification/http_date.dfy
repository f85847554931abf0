/** IMF-fixdate dates (section 5.6.7 of RFC 9110): closed-form civil date conversion, and the
    parser and formatter built on it. Machine integers are `int`s whose casts are written out. */
module HttpDate {
  import opened Wrappers
  import opened Text
  import opened Gregorian

  const U32_LIMIT: int := 0x1_0000_0000
  const I32_MAX: int := 0x7FFF_FFFF
  const SECONDS_PER_DAY: int := 86_400

  /** Rust's `as i32`. */
  function AsI32(x: int): (r: int)
    ensures -0x8000_0000 <= r <= I32_MAX
    ensures -0x8000_0000 <= x <= I32_MAX ==> r == x
  {
    var low := x % U32_LIMIT;
    if low <= I32_MAX then low else low - U32_LIMIT
  }

  /** Rust's `/`, which truncates toward zero. */
  function TruncDiv(a: int, b: int): int
    requires b > 0
  {
    if a >= 0 then a / b else -((-a) / b)
  }

  datatype Date = Date(year: int, month: int, day: int)

  function DaysFromCivil(year: int, month: int, day: int): Option<int> {
    if day > MaxDay(year, month) then None
    else
      var y := year - (if month <= 2 then 1 else 0);
      var era := TruncDiv(if y >= 0 then y else y - 399, 400);
      var yearOfEra := y - era * 400;
      var dayOfYear := (153 * (month + (if month > 2 then -3 else 9)) + 2) / 5 + day - 1;
      var dayOfEra := EraYearStart(yearOfEra) + dayOfYear;
      var days := era * 146_097 + dayOfEra - 719_468;
      if days < 0 then None else Some(days)
  }

  /** Days of an era, which starts on 1 March, before a given year of it. */
  function EraYearStart(yearOfEra: int): int {
    yearOfEra * 365 + yearOfEra / 4 - yearOfEra / 100
  }

  function EraYear(dayOfEra: int): int {
    (dayOfEra - dayOfEra / 1_460 + dayOfEra / 36_524 - dayOfEra / 146_096) / 365
  }

  function DateOfYearDay(year: int, dayOfYear: int): Date {
    var monthPart := (5 * dayOfYear + 2) / 153;
    var day := dayOfYear - (153 * monthPart + 2) / 5 + 1;
    var month := monthPart + (if monthPart < 10 then 3 else -9);
    Date(year + (if month <= 2 then 1 else 0), month, day)
  }

  /** `civil_from_days` before the year is cast to `i32`. */
  function WideCivilFromDays(days: int): Date
    requires days >= 0
  {
    var z := days + 719_468;
    var era := z / 146_097;
    var dayOfEra := z - era * 146_097;
    var yearOfEra := EraYear(dayOfEra);
    DateOfYearDay(yearOfEra + era * 400, dayOfEra - EraYearStart(yearOfEra))
  }

  function CivilFromDays(days: int): Date
    requires days >= 0
  {
    var d := WideCivilFromDays(days);
    d.(year := AsI32(d.year))
  }

  // ----- counting days one at a time --------------------------------------

  predicate IsDate(d: Date) {
    1 <= d.month <= 12 && 1 <= d.day <= MaxDay(d.year, d.month)
  }

  const Epoch: Date := Date(1970, 1, 1)

  function NextDay(d: Date): Date {
    if d.day < MaxDay(d.year, d.month) then d.(day := d.day + 1)
    else if d.month < 12 then Date(d.year, d.month + 1, 1)
    else Date(d.year + 1, 1, 1)
  }

  function CountDays(n: nat): Date {
    if n == 0 then Epoch else NextDay(CountDays(n - 1))
  }

  /** A day of the era, counted in centuries, four-year cycles, years and days. */
  datatype EraDay = EraDay(century: int, cycle: int, year: int, day: int)

  function SplitEraDay(dayOfEra: int): (e: EraDay)
    requires 0 <= dayOfEra < 146_097
    ensures 0 <= e.century <= 3 && 0 <= e.cycle <= 24 && 0 <= e.year <= 3
    ensures 0 <= e.day <= 365 && (e.day == 365 ==> e.year == 3)
    ensures e.day == 365 && e.cycle == 24 ==> e.century == 3
    ensures dayOfEra == 36_524 * e.century + 1_461 * e.cycle + 365 * e.year + e.day
  {
    var century := if dayOfEra < 36_524 then 0 else if dayOfEra < 73_048 then 1
                   else if dayOfEra < 109_572 then 2 else 3;
    var inCentury := dayOfEra - 36_524 * century;
    var cycle := inCentury / 1_461;
    var inCycle := inCentury - 1_461 * cycle;
    var year := if inCycle < 365 then 0 else if inCycle < 730 then 1
                else if inCycle < 1_095 then 2 else 3;
    EraDay(century, cycle, year, inCycle - 365 * year)
  }

  lemma QuotientIs(a: int, b: int, q: int)
    requires b > 0 && b * q <= a < b * q + b
    ensures a / b == q
  {
    var r := a - b * q;
    assert a == b * q + r;
    var d := a / b - q;
    assert b * d <= r < b * d + b by {
      assert b * (a / b) == b * q + b * d;
    }
    assert (d > 0 ==> b * d >= b) && (d < 0 ==> b * d <= -b);
  }

  /** The year formula on a day given by its parts. */
  lemma EraYearOfParts(dayOfEra: int, e: EraDay)
    requires 0 <= dayOfEra < 146_097 && e == SplitEraDay(dayOfEra)
    ensures EraYear(dayOfEra) == 100 * e.century + 4 * e.cycle + e.year
  {
    var y := 100 * e.century + 4 * e.cycle + e.year;
    var extra := if 24 * e.century + e.cycle + 365 * e.year + e.day >= 1_460 then 1 else 0;
    var last := if dayOfEra == 146_096 then 1 else 0;
    assert dayOfEra / 1_460 == 25 * e.century + e.cycle + extra by {
      QuotientIs(dayOfEra, 1_460, 25 * e.century + e.cycle + extra);
    }
    assert dayOfEra / 36_524 == e.century + last by { QuotientIs(dayOfEra, 36_524, e.century + last); }
    assert dayOfEra / 146_096 == last by { QuotientIs(dayOfEra, 146_096, last); }
    assert (365 * y + e.day - extra) / 365 == y by { QuotientIs(365 * y + e.day - extra, 365, y); }
  }

  // ----- the two conversions invert each other ----------------------------

  /** The year of an era that starts on 1 March, and the era. */
  function MarchYear(d: Date): int {
    d.year - (if d.month <= 2 then 1 else 0)
  }

  function MonthPart(month: int): int {
    month + (if month > 2 then -3 else 9)
  }

  function DayOfMarchYear(d: Date): int {
    (153 * MonthPart(d.month) + 2) / 5 + d.day - 1
  }

  lemma RemainderRepeats(m: int, k: int, b: int)
    requires m > 0
    ensures (m * k + b) % m == b % m
  {
    var q := b / m;
    assert m * (k + q) == m * k + m * q;
    QuotientIs(m * k + b, m, k + q);
  }

  lemma LeapYearRepeats(era: int, k: int)
    ensures IsLeapYear(400 * era + k) <==> IsLeapYear(k)
  {
    RemainderRepeats(4, 100 * era, k);
    RemainderRepeats(100, 4 * era, k);
    RemainderRepeats(400, era, k);
  }

  /** The parts of a year of the era, and which of them end in a leap day. */
  lemma YearParts(yearOfEra: int) returns (century: int, cycle: int, year: int)
    requires 0 <= yearOfEra < 400
    ensures 0 <= century <= 3 && 0 <= cycle <= 24 && 0 <= year <= 3
    ensures yearOfEra == 100 * century + 4 * cycle + year
    ensures EraYearStart(yearOfEra) == 36_524 * century + 1_461 * cycle + 365 * year
    ensures IsLeapYear(yearOfEra + 1) <==> year == 3 && (cycle == 24 ==> century == 3)
  {
    century := yearOfEra / 100;
    var inCentury := yearOfEra - 100 * century;
    cycle := inCentury / 4;
    year := inCentury - 4 * cycle;
    QuotientIs(yearOfEra, 4, 25 * century + cycle);
  }

  /** The day of the year, and the month that the division by 153 recovers from it. */
  lemma MonthOfDay(d: Date)
    requires IsDate(d)
    ensures 0 <= DayOfMarchYear(d) <= 365
    ensures DayOfMarchYear(d) == 365 ==> IsLeapYear(MarchYear(d) + 1)
    ensures DateOfYearDay(MarchYear(d), DayOfMarchYear(d)) == d
  {
    QuotientIs(5 * DayOfMarchYear(d) + 2, 153, MonthPart(d.month));
  }

  /** A date of a non-negative March year falls on a day of its era with these parts. */
  lemma EraDayOfDate(d: Date, era: int, yearOfEra: int)
    requires IsDate(d) && MarchYear(d) == 400 * era + yearOfEra && 0 <= yearOfEra < 400
    ensures 0 <= EraYearStart(yearOfEra) + DayOfMarchYear(d) < 146_097
    ensures EraYear(EraYearStart(yearOfEra) + DayOfMarchYear(d)) == yearOfEra
  {
    MonthOfDay(d);
    LeapYearRepeats(era, yearOfEra + 1);
    var century, cycle, year := YearParts(yearOfEra);
    EraDayOfParts(EraDay(century, cycle, year, DayOfMarchYear(d)));
  }

  lemma EraDayOfParts(e: EraDay)
    requires 0 <= e.century <= 3 && 0 <= e.cycle <= 24 && 0 <= e.year <= 3
    requires 0 <= e.day <= 365 && (e.day == 365 ==> e.year == 3)
    requires e.day == 365 && e.cycle == 24 ==> e.century == 3
    ensures var dayOfEra := 36_524 * e.century + 1_461 * e.cycle + 365 * e.year + e.day;
            0 <= dayOfEra < 146_097 &&
            EraYear(dayOfEra) == 100 * e.century + 4 * e.cycle + e.year
  {
    SplitEraDayUnique(e);
    var dayOfEra := 36_524 * e.century + 1_461 * e.cycle + 365 * e.year + e.day;
    EraYearOfParts(dayOfEra, e);
  }

  lemma SplitEraDayUnique(e: EraDay)
    requires 0 <= e.century <= 3 && 0 <= e.cycle <= 24 && 0 <= e.year <= 3
    requires 0 <= e.day <= 365 && (e.day == 365 ==> e.year == 3)
    requires e.day == 365 && e.cycle == 24 ==> e.century == 3
    ensures 0 <= 36_524 * e.century + 1_461 * e.cycle + 365 * e.year + e.day < 146_097
    ensures SplitEraDay(36_524 * e.century + 1_461 * e.cycle + 365 * e.year + e.day) == e
  {
    QuotientIs(1_461 * e.cycle + 365 * e.year + e.day, 1_461, e.cycle);
  }

  function MarchEra(d: Date): int {
    var y := MarchYear(d);
    TruncDiv(if y >= 0 then y else y - 399, 400)
  }

  lemma MarchEraFloor(d: Date)
    ensures 0 <= MarchYear(d) - 400 * MarchEra(d) < 400
  {
  }

  /** The day number of a date, given the era and the year of the era it falls in. */
  predicate HasDayNumber(d: Date, era: int, yearOfEra: int, days: int) {
    0 <= yearOfEra < 400 && MarchYear(d) == 400 * era + yearOfEra &&
    days == 146_097 * era + EraYearStart(yearOfEra) + DayOfMarchYear(d) - 719_468
  }

  lemma DaysFromCivilParts(d: Date) returns (era: int, yearOfEra: int, days: int)
    requires IsDate(d)
    ensures HasDayNumber(d, era, yearOfEra, days)
    ensures DaysFromCivil(d.year, d.month, d.day) == if days < 0 then None else Some(days)
  {
    MarchEraFloor(d);
    era := MarchEra(d);
    yearOfEra := MarchYear(d) - 400 * era;
    days := 146_097 * era + EraYearStart(yearOfEra) + DayOfMarchYear(d) - 719_468;
  }

  lemma EraUnique(a: int, b: int, x: int, y: int)
    requires 0 <= x < 400 && 0 <= y < 400 && 400 * a + x == 400 * b + y
    ensures a == b && x == y
  {
  }

  /** The formula depends on the date alone. */
  lemma DaysFromCivilHas(d: Date, era: int, yearOfEra: int, days: int)
    requires IsDate(d) && HasDayNumber(d, era, yearOfEra, days)
    ensures DaysFromCivil(d.year, d.month, d.day) == if days < 0 then None else Some(days)
  {
    var e, y, n := DaysFromCivilParts(d);
    EraUnique(e, era, y, yearOfEra);
  }

  lemma WideCivilOfEraDay(days: int, era: int, dayOfEra: int, yearOfEra: int)
    requires days >= 0 && days + 719_468 == 146_097 * era + dayOfEra && 0 <= dayOfEra < 146_097
    requires EraYear(dayOfEra) == yearOfEra
    ensures WideCivilFromDays(days)
              == DateOfYearDay(400 * era + yearOfEra, dayOfEra - EraYearStart(yearOfEra))
  {
    QuotientIs(days + 719_468, 146_097, era);
  }

  lemma CivilOfDayNumber(d: Date, era: int, yearOfEra: int, days: int)
    requires IsDate(d) && HasDayNumber(d, era, yearOfEra, days) && days >= 0
    ensures WideCivilFromDays(days) == d
  {
    EraDayOfDate(d, era, yearOfEra);
    MonthOfDay(d);
    var dayOfEra := EraYearStart(yearOfEra) + DayOfMarchYear(d);
    WideCivilOfEraDay(days, era, dayOfEra, yearOfEra);
  }

  /** From a date to its day number and back. */
  lemma CivilInvertsDays(d: Date)
    requires IsDate(d) && DaysFromCivil(d.year, d.month, d.day).Some?
    ensures WideCivilFromDays(DaysFromCivil(d.year, d.month, d.day).value) == d
  {
    var era, yearOfEra, days := DaysFromCivilParts(d);
    CivilOfDayNumber(d, era, yearOfEra, days);
  }

  lemma MonthLengths(d: Date)
    requires IsDate(d) && d.day == MaxDay(d.year, d.month) && d.month != 2
    ensures IsDate(NextDay(d)) && MarchYear(NextDay(d)) == MarchYear(d)
    ensures DayOfMarchYear(NextDay(d)) == DayOfMarchYear(d) + 1
  {
    assert d.month in {1, 3, 4, 5, 6, 7, 8, 9, 10, 11, 12};
  }

  lemma EraYearLength(era: int, yearOfEra: int)
    requires 0 <= yearOfEra < 400
    ensures (if yearOfEra < 399 then EraYearStart(yearOfEra + 1) else 146_097)
              == EraYearStart(yearOfEra) + (if IsLeapYear(400 * era + yearOfEra + 1) then 366 else 365)
  {
    LeapYearRepeats(era, yearOfEra + 1);
    assert 400 * era + yearOfEra + 1 == 400 * era + (yearOfEra + 1);
    FirstEraYearLength(yearOfEra);
  }

  lemma FirstEraYearLength(yearOfEra: int)
    requires 0 <= yearOfEra < 400
    ensures (if yearOfEra < 399 then EraYearStart(yearOfEra + 1) else 146_097)
              == EraYearStart(yearOfEra) + (if IsLeapYear(yearOfEra + 1) then 366 else 365)
  {
    var century, cycle, year := YearParts(yearOfEra);
    if yearOfEra < 399 {
      var century', cycle', year' := YearParts(yearOfEra + 1);
    }
  }

  lemma DayNumberStep(d: Date, era: int, yearOfEra: int, days: int)
    returns (era': int, yearOfEra': int)
    requires IsDate(d) && HasDayNumber(d, era, yearOfEra, days)
    ensures IsDate(NextDay(d)) && HasDayNumber(NextDay(d), era', yearOfEra', days + 1)
  {
    era', yearOfEra' := era, yearOfEra;
    if d.day == MaxDay(d.year, d.month) {
      if d.month != 2 {
        MonthLengths(d);
      } else {
        EraYearLength(era, yearOfEra);
        if yearOfEra < 399 {
          yearOfEra' := yearOfEra + 1;
        } else {
          era', yearOfEra' := era + 1, 0;
        }
      }
    }
  }

  /** One more day on the calendar is one more day of the count. */
  lemma DaysStep(d: Date)
    requires IsDate(d) && DaysFromCivil(d.year, d.month, d.day).Some?
    ensures IsDate(NextDay(d))
    ensures DaysFromCivil(NextDay(d).year, NextDay(d).month, NextDay(d).day)
              == Some(DaysFromCivil(d.year, d.month, d.day).value + 1)
  {
    var era, yearOfEra, days := DaysFromCivilParts(d);
    var era', yearOfEra' := DayNumberStep(d, era, yearOfEra, days);
    DaysFromCivilHas(NextDay(d), era', yearOfEra', days + 1);
  }

  lemma {:induction false} CountedDay(n: nat)
    ensures IsDate(CountDays(n))
    ensures DaysFromCivil(CountDays(n).year, CountDays(n).month, CountDays(n).day) == Some(n)
  {
    if n > 0 {
      CountedDay(n - 1);
      DaysStep(CountDays(n - 1));
    }
  }

  /** The closed form counts days: no calendar walk is needed, for any number of days. */
  lemma ClosedFormCountsDays(n: nat)
    ensures WideCivilFromDays(n) == CountDays(n)
    ensures IsDate(WideCivilFromDays(n))
    ensures DaysFromCivil(CountDays(n).year, CountDays(n).month, CountDays(n).day) == Some(n)
  {
    CountedDay(n);
    CivilInvertsDays(CountDays(n));
  }

  lemma {:induction false} CountedYears(n: nat, m: nat)
    requires n <= m
    ensures 1970 <= CountDays(n).year <= CountDays(m).year
  {
    if m == 0 {
    } else if n < m {
      CountedYears(n, m - 1);
    } else {
      CountedYears(n - 1, n - 1);
    }
  }

  /** Every date from 1970 on whose year fits an `i32` has a day number, which leads back to it by
      the closed form and by counting. */
  lemma DaysThenCivil(d: Date)
    requires IsDate(d) && 1970 <= d.year <= I32_MAX
    ensures DaysFromCivil(d.year, d.month, d.day).Some?
    ensures CivilFromDays(DaysFromCivil(d.year, d.month, d.day).value) == d
    ensures CountDays(DaysFromCivil(d.year, d.month, d.day).value) == d
  {
    var era, yearOfEra, days := DaysFromCivilParts(d);
    assert days >= 0 by { MonthOfDay(d); }
    CivilInvertsDays(d);
    ClosedFormCountsDays(days);
  }

  /** Every day number leads to the counted date, its year cast to `i32`; while the year fits, back again. */
  lemma CivilThenDays(n: nat)
    ensures IsDate(CountDays(n)) && 1970 <= CountDays(n).year
    ensures CivilFromDays(n) == CountDays(n).(year := AsI32(CountDays(n).year))
    ensures CountDays(n).year <= I32_MAX ==>
              var c := CivilFromDays(n); DaysFromCivil(c.year, c.month, c.day) == Some(n)
  {
    ClosedFormCountsDays(n);
    CountedYears(n, n);
  }

  // ----- text -------------------------------------------------------------

  function MonthName(index: nat): string
    requires index < 12
  {
    match index
    case 0 => "Jan"
    case 1 => "Feb"
    case 2 => "Mar"
    case 3 => "Apr"
    case 4 => "May"
    case 5 => "Jun"
    case 6 => "Jul"
    case 7 => "Aug"
    case 8 => "Sep"
    case 9 => "Oct"
    case 10 => "Nov"
    case _ => "Dec"
  }

  /** The first second that no IMF-fixdate names: 10000-01-01T00:00:00Z. */
  const YearTenThousand: int := 253_402_300_800

  predicate IsAsciiWhitespace(c: char) {
    c == ' ' || c == '\t' || c == '\n' || c == '\U{0C}' || c == '\r'
  }

  function WordLength(s: string): (n: nat)
    ensures n <= |s|
    ensures |s| > 0 && !IsAsciiWhitespace(s[0]) ==> n > 0
  {
    if s == [] || IsAsciiWhitespace(s[0]) then 0 else 1 + WordLength(s[1..])
  }

  /** Rust's `split_ascii_whitespace`. */
  function Words(s: string): seq<string>
    decreases |s|
  {
    if s == [] then []
    else if IsAsciiWhitespace(s[0]) then Words(s[1..])
    else [s[..WordLength(s)]] + Words(s[WordLength(s)..])
  }

  /** `str::parse` to an unsigned type whose values are below `limit`. */
  function ParseUnsigned(s: string, limit: int): Option<int> {
    var digits := if |s| > 0 && s[0] == '+' then s[1..] else s;
    if digits == [] || !AllDigits(digits) || DecimalValue(digits) >= limit then None
    else Some(DecimalValue(digits))
  }

  function ParseI32(s: string): Option<int> {
    if |s| > 0 && s[0] == '-' then
      if s[1..] == [] || !AllDigits(s[1..]) || DecimalValue(s[1..]) > I32_MAX + 1 then None
      else Some(0 - DecimalValue(s[1..]) as int)
    else ParseUnsigned(s, I32_MAX + 1)
  }

  /** The position of `name` among the month names, from `from` on. */
  function FindMonth(name: string, from: nat): (r: Option<nat>)
    requires from <= 12
    ensures r.Some? ==> r.value < 12 && MonthName(r.value) == name
    decreases 12 - from
  {
    if from == 12 then None else if MonthName(from) == name then Some(from) else FindMonth(name, from + 1)
  }

  datatype Clock = Clock(hour: int, minute: int, second: int)

  function ParseClock(value: string): Option<Clock> {
    var fields := Split(value, ':');
    if |fields| != 3 then None
    else
      match (ParseUnsigned(fields[0], U32_LIMIT), ParseUnsigned(fields[1], U32_LIMIT),
             ParseUnsigned(fields[2], U32_LIMIT))
      case (Some(hour), Some(minute), Some(second)) =>
        if hour > 23 || minute > 59 || second > 60 then None
        else Some(Clock(hour, minute, if second < 59 then second else 59))
      case _ => None
  }

  function ParseFields(value: string): Option<(Date, Clock)> {
    var parts := Words(value);
    if |parts| != 6 || ByteLength(parts[0]) != 4 || parts[0][|parts[0]| - 1] != ',' || parts[5] != "GMT" then None
    else
      match (ParseUnsigned(parts[1], U32_LIMIT), FindMonth(parts[2], 0), ParseI32(parts[3]), ParseClock(parts[4]))
      case (Some(day), Some(index), Some(year), Some(clock)) =>
        if !(1 <= year <= 9999) || !(1 <= day <= 31) then None
        else Some((Date(year, index + 1, day), clock))
      case _ => None
  }

  function InstantOf(days: int, clock: Clock): Option<int> {
    var seconds := days * SECONDS_PER_DAY + clock.hour * 3_600 + clock.minute * 60 + clock.second;
    if seconds > MAX_U64 then None else Some(seconds)
  }

  function Parse(value: string): Option<int> {
    match ParseFields(value)
    case None => None
    case Some((d, clock)) =>
      match DaysFromCivil(d.year, d.month, d.day)
      case None => None
      case Some(days) => InstantOf(days, clock)
  }

  function Digit(n: int): char
    requires 0 <= n <= 9
  {
    ('0' as int + n) as char
  }

  function Pad2(n: int): string
    requires 0 <= n < 100
  {
    [Digit(n / 10), Digit(n % 10)]
  }

  function Pad4(n: int): string
    requires 0 <= n < 10_000
  {
    Pad2(n / 100) + Pad2(n % 100)
  }

  function Weekday(days: int): (name: string)
    ensures |name| == 3 && forall c :: c in name ==> 'A' <= c <= 'z'
  {
    match days % 7
    case 0 => "Thu"
    case 1 => "Fri"
    case 2 => "Sat"
    case 3 => "Sun"
    case 4 => "Mon"
    case 5 => "Tue"
    case _ => "Wed"
  }

  function ClockText(hour: int, minute: int, second: int): string
    requires 0 <= hour < 100 && 0 <= minute < 100 && 0 <= second < 100
  {
    Pad2(hour) + ":" + Pad2(minute) + ":" + Pad2(second)
  }

  function FixDate(weekday: string, d: Date, clock: string): string
    requires 1 <= d.month <= 12 && 1 <= d.day <= 31 && 0 <= d.year <= 9999
  {
    Join([weekday + ",", Pad2(d.day), MonthName(d.month - 1), Pad4(d.year), clock, "GMT"], " ")
  }

  function FormatDay(days: int, d: Date, remainder: int): Option<string>
    requires 1 <= d.month <= 12 && 1 <= d.day <= 31 && 0 <= remainder < SECONDS_PER_DAY
  {
    if !(1 <= d.year <= 9999) then None
    else
      var clock := ClockText(remainder / 3_600, remainder % 3_600 / 60, remainder % 60);
      Some(FixDate(Weekday(days), d, clock))
  }

  function Format(seconds: int): Option<string>
    requires 0 <= seconds <= MAX_U64
  {
    var days := seconds / SECONDS_PER_DAY;
    CivilThenDays(days);
    FormatDay(days, CivilFromDays(days), seconds % SECONDS_PER_DAY)
  }

  lemma {:induction false} WordFirst(a: string, b: string)
    requires a != [] && forall c :: c in a ==> !IsAsciiWhitespace(c)
    ensures Words(a + " " + b) == [a] + Words(b)
    ensures Words(a) == [a]
  {
    WordLengthOf(a, " " + b);
    WordLengthOf(a, "");
    assert a + "" == a;
    assert a[0] in a;
    var s := a + " " + b;
    assert s == a + (" " + b) && s[..|a|] == a && s[|a|..] == " " + b;
    assert (" " + b)[1..] == b;
    assert a[..|a|] == a && a[|a|..] == [];
  }

  lemma {:induction false} WordLengthOf(a: string, rest: string)
    requires forall c :: c in a ==> !IsAsciiWhitespace(c)
    requires rest == [] || IsAsciiWhitespace(rest[0])
    ensures WordLength(a + rest) == |a|
  {
    if a == [] {
      assert a + rest == rest;
    } else {
      assert a[0] in a;
      assert (a + rest)[1..] == a[1..] + rest;
      WordLengthOf(a[1..], rest);
    }
  }

  lemma ParsePad2(n: int, limit: int)
    requires 0 <= n < 100 <= limit
    ensures ParseUnsigned(Pad2(n), limit) == Some(n)
    ensures forall c :: c in Pad2(n) ==> IsDigit(c)
  {
    DecimalOfPair([], Digit(n / 10), Digit(n % 10));
    assert Pad2(n) == [] + [Digit(n / 10), Digit(n % 10)];
    assert !('+' in Pad2(n));
  }

  lemma DecimalOfPair(front: string, a: char, b: char)
    requires AllDigits(front) && IsDigit(a) && IsDigit(b)
    ensures AllDigits(front + [a, b])
    ensures DecimalValue(front + [a, b])
              == 100 * DecimalValue(front) + 10 * (a as int - '0' as int) + (b as int - '0' as int)
  {
    var s := front + [a, b];
    assert s[..|s| - 1] == front + [a];
    assert (front + [a])[..|front|] == front;
  }

  lemma ParsePad4(n: int)
    requires 0 <= n < 10_000
    ensures ParseI32(Pad4(n)) == Some(n)
    ensures forall c :: c in Pad4(n) ==> IsDigit(c)
  {
    DecimalOfPair([], Digit(n / 100 / 10), Digit(n / 100 % 10));
    DecimalOfPair(Pad2(n / 100), Digit(n % 100 / 10), Digit(n % 100 % 10));
    assert Pad2(n / 100) == [] + Pad2(n / 100);
  }

  lemma ParseClockText(hour: int, minute: int, second: int)
    requires 0 <= hour <= 23 && 0 <= minute <= 59 && 0 <= second <= 59
    ensures ParseClock(ClockText(hour, minute, second)) == Some(Clock(hour, minute, second))
    ensures forall c :: c in ClockText(hour, minute, second) ==> !IsAsciiWhitespace(c)
  {
    hide Pad2, Split, ParseUnsigned;
    var h, m, s := Pad2(hour), Pad2(minute), Pad2(second);
    ParsePad2(hour, U32_LIMIT);
    ParsePad2(minute, U32_LIMIT);
    ParsePad2(second, U32_LIMIT);
    assert ClockText(hour, minute, second) == h + [':'] + (m + [':'] + s);
    SplitConcat(h, ':', m + [':'] + s);
    SplitConcat(m, ':', s);
    SplitAlone(s);
  }

  lemma SplitAlone(s: string)
    requires ':' !in s
    ensures Split(s, ':') == [s]
  {
  }

  /** The last two letters tell the months apart. */
  lemma MonthCode(i: nat)
    requires i < 12
    ensures |MonthName(i)| == 3
    ensures MonthName(i)[1] as int * 128 + MonthName(i)[2] as int
              == [12526, 13026, 12530, 14450, 12537, 15086, 15084, 15079, 13040, 12788, 14326, 13027][i]
    ensures forall c :: c in MonthName(i) ==> !IsAsciiWhitespace(c)
  {
  }

  lemma {:induction false} MonthPosition(index: nat, from: nat)
    requires from <= index < 12
    ensures FindMonth(MonthName(index), from) == Some(index)
    decreases 12 - from
  {
    hide MonthName;
    MonthCode(from);
    MonthCode(index);
    if from < index {
      MonthPosition(index, from + 1);
    }
  }

  predicate IsWord(s: string) {
    s != [] && forall c :: c in s ==> !IsAsciiWhitespace(c)
  }

  lemma {:induction false} WordsOfJoin(parts: seq<string>)
    requires forall p :: p in parts ==> IsWord(p)
    ensures Words(Join(parts, " ")) == parts
  {
    if |parts| > 0 {
      assert parts == [parts[0]] + parts[1..];
      assert IsWord(parts[0]);
      WordsOfJoin(parts[1..]);
      WordFirst(parts[0], Join(parts[1..], " "));
    }
  }

  lemma ParseOfWords(value: string, parts: seq<string>, d: Date, clock: Clock)
    requires Words(value) == parts && |parts| == 6 && parts[5] == "GMT"
    requires ByteLength(parts[0]) == 4 && |parts[0]| == 4 && parts[0][3] == ','
    requires ParseUnsigned(parts[1], U32_LIMIT) == Some(d.day) && ParseI32(parts[3]) == Some(d.year)
    requires FindMonth(parts[2], 0).Some? && FindMonth(parts[2], 0).value == d.month - 1
    requires ParseClock(parts[4]) == Some(clock)
    requires 1 <= d.day <= 31 && 1 <= d.year <= 9999
    ensures ParseFields(value) == Some((d, clock))
  {
  }

  lemma FixDateWords(weekday: string, d: Date, clock: Clock) returns (parts: seq<string>)
    requires 1 <= d.month <= 12 && 1 <= d.day <= 31 && 0 <= d.year <= 9999 && IsWord(weekday + ",")
    requires 0 <= clock.hour <= 23 && 0 <= clock.minute <= 59 && 0 <= clock.second <= 59
    ensures parts == [weekday + ",", Pad2(d.day), MonthName(d.month - 1), Pad4(d.year),
                      ClockText(clock.hour, clock.minute, clock.second), "GMT"]
    ensures Words(FixDate(weekday, d, ClockText(clock.hour, clock.minute, clock.second))) == parts
  {
    var first, day, month, year := weekday + ",", Pad2(d.day), MonthName(d.month - 1), Pad4(d.year);
    var time := ClockText(clock.hour, clock.minute, clock.second);
    assert IsWord(day) by { ParsePad2(d.day, U32_LIMIT); }
    assert IsWord(month) by { MonthCode(d.month - 1); }
    assert IsWord(year) by { ParsePad4(d.year); }
    assert IsWord(time) by { ParseClockText(clock.hour, clock.minute, clock.second); }
    assert IsWord("GMT");
    parts := [first, day, month, year, time, "GMT"];
    WordsOfJoin(parts);
  }

  lemma ParseFixDate(weekday: string, d: Date, clock: Clock)
    requires 1 <= d.month <= 12 && 1 <= d.day <= 31 && 1 <= d.year <= 9999 && |weekday| == 3
    requires forall c :: c in weekday ==> 'A' <= c <= 'z'
    requires 0 <= clock.hour <= 23 && 0 <= clock.minute <= 59 && 0 <= clock.second <= 59
    ensures ParseFields(FixDate(weekday, d, ClockText(clock.hour, clock.minute, clock.second)))
              == Some((d, clock))
  {
    hide ParseFields, FixDate, ClockText, Words, Pad2, Pad4, MonthName, ParseUnsigned, ParseI32, ParseClock, FindMonth, ByteLength;
    var text := FixDate(weekday, d, ClockText(clock.hour, clock.minute, clock.second));
    assert forall c :: c in weekday + "," ==> c < '\U{80}' && !IsAsciiWhitespace(c);
    var parts := FixDateWords(weekday, d, clock);
    assert ByteLength(parts[0]) == 4 by { ByteLengthAscii(parts[0]); }
    assert ParseClock(parts[4]) == Some(clock) by { ParseClockText(clock.hour, clock.minute, clock.second); }
    assert ParseUnsigned(parts[1], U32_LIMIT) == Some(d.day) by { ParsePad2(d.day, U32_LIMIT); }
    assert ParseI32(parts[3]) == Some(d.year) by { ParsePad4(d.year); }
    assert FindMonth(parts[2], 0) == Some((d.month - 1) as nat) by { MonthPosition(d.month - 1, 0); }
    ParseOfWords(text, parts, d, clock);
  }

  /** Day numbers of the years that an IMF-fixdate can name. */
  lemma FixDateRange(d: Date)
    requires IsDate(d) && d.year <= 9999 && DaysFromCivil(d.year, d.month, d.day).Some?
    ensures DaysFromCivil(d.year, d.month, d.day).value < 2_932_897
  {
    var n := DaysFromCivil(d.year, d.month, d.day).value;
    CivilInvertsDays(d);
    ClosedFormCountsDays(n);
    FirstDayOfYearTenThousand();
    if n >= 2_932_897 {
      CountedYears(2_932_897, n);
      assert false;
    }
  }

  lemma CountedDate(d: Date, era: int, yearOfEra: int, days: nat)
    requires IsDate(d) && HasDayNumber(d, era, yearOfEra, days)
    ensures CountDays(days) == d
  {
    CivilOfDayNumber(d, era, yearOfEra, days);
    ClosedFormCountsDays(days);
  }

  lemma FirstDayOfYearTenThousand()
    ensures CountDays(2_932_897) == Date(10_000, 1, 1)
    ensures CountDays(2_932_896) == Date(9999, 12, 31)
  {
    CountedDate(Date(10_000, 1, 1), 24, 399, 2_932_897);
    CountedDate(Date(9999, 12, 31), 24, 399, 2_932_896);
  }

  lemma ParseRange(value: string)
    ensures Parse(value).Some? ==> 0 <= Parse(value).value < YearTenThousand
  {
    if Parse(value).Some? {
      var (d, clock) := ParseFields(value).value;
      FixDateRange(d);
    }
  }

  // ----- exactly what is parsed -------------------------------------------

  const Months: seq<string> := ["Jan", "Feb", "Mar", "Apr", "May", "Jun", "Jul", "Aug", "Sep", "Oct", "Nov", "Dec"]

  /** Decimal digits of a number, perhaps behind a plus sign. */
  ghost predicate Numeral(text: string, n: int) {
    exists digits :: digits != "" && AllDigits(digits) && DecimalValue(digits) == n && (text == digits || text == "+" + digits)
  }

  lemma UnsignedExactly(s: string, limit: int, n: int)
    ensures ParseUnsigned(s, limit) == Some(n) <==> Numeral(s, n) && n < limit
  {
    if |s| > 0 && s[0] == '+' {
      assert s == "+" + s[1..];
    }
    forall digits | digits != "" && AllDigits(digits) ensures digits[0] != '+' && ("+" + digits)[1..] == digits {
      assert digits[0] in digits;
    }
  }

  lemma YearExactly(s: string, n: int)
    requires 1 <= n <= 9999
    ensures ParseI32(s) == Some(n) <==> Numeral(s, n)
  {
    if |s| > 0 && s[0] == '-' {
      forall digits | digits != "" && AllDigits(digits) ensures s != digits && s != "+" + digits {
        assert digits[0] in digits;
      }
    } else {
      UnsignedExactly(s, I32_MAX + 1, n);
    }
  }

  /** Hours, minutes and seconds between colons; a leap second is taken as the one before. */
  ghost predicate TimeOf(text: string, hour: int, minute: int, second: int) {
    exists h, m, s, leap ::
      ':' !in h && ':' !in m && ':' !in s && text == h + ":" + m + ":" + s &&
      Numeral(h, hour) && hour <= 23 && Numeral(m, minute) && minute <= 59 &&
      Numeral(s, leap) && leap <= 60 && second == if leap == 60 then 59 else leap
  }

  lemma ThreeFields(h: string, m: string, s: string)
    requires ':' !in h && ':' !in m && ':' !in s
    ensures Split(h + ":" + m + ":" + s, ':') == [h, m, s]
  {
    var text := h + ":" + m + ":" + s;
    assert text == h + [':'] + (m + [':'] + s);
    SplitConcat(h, ':', m + [':'] + s);
    SplitConcat(m, ':', s);
    SplitAlone(s);
  }

  lemma ClockExactly(text: string, c: Clock)
    ensures ParseClock(text) == Some(c) <==> TimeOf(text, c.hour, c.minute, c.second)
  {
    hide Split, ParseUnsigned, Numeral;
    if ParseClock(text) == Some(c) {
      var fields := Split(text, ':');
      SplitFields(text);
      var leap := ParseUnsigned(fields[2], U32_LIMIT).value;
      UnsignedExactly(fields[0], U32_LIMIT, c.hour);
      UnsignedExactly(fields[1], U32_LIMIT, c.minute);
      UnsignedExactly(fields[2], U32_LIMIT, leap);
      assert text == fields[0] + ":" + fields[1] + ":" + fields[2];
    }
    if TimeOf(text, c.hour, c.minute, c.second) {
      var h, m, s, leap :|
        ':' !in h && ':' !in m && ':' !in s && text == h + ":" + m + ":" + s &&
        Numeral(h, c.hour) && c.hour <= 23 && Numeral(m, c.minute) && c.minute <= 59 &&
        Numeral(s, leap) && leap <= 60 && c.second == if leap == 60 then 59 else leap;
      ThreeFields(h, m, s);
      UnsignedExactly(h, U32_LIMIT, c.hour);
      UnsignedExactly(m, U32_LIMIT, c.minute);
      UnsignedExactly(s, U32_LIMIT, leap);
    }
  }

  lemma SplitFields(text: string)
    requires |Split(text, ':')| == 3
    ensures var f := Split(text, ':');
            ':' !in f[0] && ':' !in f[1] && ':' !in f[2] && text == f[0] + ":" + f[1] + ":" + f[2]
  {
    hide Split;
    var f := Split(text, ':');
    FirstField(text);
    var rest := text[|f[0]| + 1..];
    FirstField(rest);
    var last := rest[|f[1]| + 1..];
    FirstField(last);
    assert f[1..][0] == f[1] && f[1..][1..] == [f[2]];
    ConcatAssociates(f[0] + ":", f[1] + ":", f[2]);
    ConcatAssociates(f[0] + ":", f[1], ":");
  }

  lemma FirstField(text: string)
    ensures var f := Split(text, ':');
            ':' !in f[0] && (|f| == 1 ==> text == f[0]) &&
            (|f| > 1 ==> |f[0]| < |text| && text == f[0] + ":" + text[|f[0]| + 1..] && Split(text[|f[0]| + 1..], ':') == f[1..])
  {
    var i := IndexOf(text, ':');
    assert i < |text| ==> text == text[..i] + ":" + text[i + 1..];
  }

  lemma {:induction false} MonthExactly(name: string, month: nat)
    requires month < 12
    ensures FindMonth(name, 0) == Some(month) <==> name == Months[month]
  {
    MonthPosition(month, 0);
  }

  /** A counted day of a year that can be written. */
  ghost predicate DayIs(n: int, year: int, month: int, day: int) {
    n >= 0 && CountDays(n) == Date(year, month, day)
  }

  lemma DayExactly(year: int, month: int, day: int, n: int)
    requires 1 <= year <= 9999 && 1 <= month <= 12 && 1 <= day <= 31
    ensures DaysFromCivil(year, month, day) == Some(n) <==> DayIs(n, year, month, day)
  {
    if DaysFromCivil(year, month, day) == Some(n) {
      CivilInvertsDays(Date(year, month, day));
      ClosedFormCountsDays(n);
    }
    if DayIs(n, year, month, day) {
      ClosedFormCountsDays(n);
    }
  }

  /** Six words: a weekday, whichever, of four bytes with its comma; a day, month and year that
      exist; a time of day; and `GMT`. The second meant is counted day by day from the epoch. */
  ghost predicate Dates(words: seq<string>, seconds: int) {
    |words| == 6 && ByteLength(words[0]) == 4 && words[0][|words[0]| - 1] == ',' && words[5] == "GMT" &&
    exists d: Date, clock: Clock, n: int ::
      Numeral(words[1], d.day) && 1 <= d.month <= 12 && words[2] == Months[d.month - 1] && Numeral(words[3], d.year) &&
      1 <= d.year <= 9999 && DayIs(n, d.year, d.month, d.day) && TimeOf(words[4], clock.hour, clock.minute, clock.second) &&
      seconds == 86_400 * n + 3_600 * clock.hour + 60 * clock.minute + clock.second
  }

  lemma FieldsExactly(value: string, d: Date, clock: Clock)
    requires ParseFields(value) == Some((d, clock))
    ensures var w := Words(value);
            |w| == 6 && ByteLength(w[0]) == 4 && w[0][|w[0]| - 1] == ',' && w[5] == "GMT" &&
            Numeral(w[1], d.day) && 1 <= d.day <= 31 && 1 <= d.month <= 12 && w[2] == Months[d.month - 1] &&
            Numeral(w[3], d.year) && 1 <= d.year <= 9999 && TimeOf(w[4], clock.hour, clock.minute, clock.second)
  {
    hide Words, ParseUnsigned, ParseI32, ParseClock, FindMonth, MonthName, ByteLength, Numeral, TimeOf;
    var w := Words(value);
    UnsignedExactly(w[1], U32_LIMIT, d.day);
    YearExactly(w[3], d.year);
    ClockExactly(w[4], clock);
    MonthExactly(w[2], d.month - 1);
  }

  lemma FieldsParse(value: string, d: Date, clock: Clock)
    requires var w := Words(value);
             |w| == 6 && ByteLength(w[0]) == 4 && w[0][|w[0]| - 1] == ',' && w[5] == "GMT" &&
             Numeral(w[1], d.day) && 1 <= d.day <= 31 && 1 <= d.month <= 12 && w[2] == Months[d.month - 1] &&
             Numeral(w[3], d.year) && 1 <= d.year <= 9999 && TimeOf(w[4], clock.hour, clock.minute, clock.second)
    ensures ParseFields(value) == Some((d, clock))
  {
    hide Words, ParseUnsigned, ParseI32, ParseClock, FindMonth, MonthName, ByteLength, Numeral, TimeOf;
    var w := Words(value);
    UnsignedExactly(w[1], U32_LIMIT, d.day);
    YearExactly(w[3], d.year);
    ClockExactly(w[4], clock);
    MonthExactly(w[2], d.month - 1);
  }

  lemma ParsedDates(value: string, seconds: int)
    requires Parse(value) == Some(seconds)
    ensures Dates(Words(value), seconds)
  {
    hide ParseFields, DaysFromCivil, Words, ByteLength, Numeral, TimeOf, DayIs, Split, MonthName, AllDigits, DecimalValue;
    var (d, clock) := ParseFields(value).value;
    var n := DaysFromCivil(d.year, d.month, d.day).value;
    FieldsExactly(value, d, clock);
    DayExactly(d.year, d.month, d.day, n);
    assert seconds == 86_400 * n + 3_600 * clock.hour + 60 * clock.minute + clock.second;
  }

  lemma DatesParse(value: string, d: Date, clock: Clock, n: int)
    requires var w := Words(value);
             |w| == 6 && ByteLength(w[0]) == 4 && w[0][|w[0]| - 1] == ',' && w[5] == "GMT" &&
             Numeral(w[1], d.day) && 1 <= d.month <= 12 && w[2] == Months[d.month - 1] && Numeral(w[3], d.year) &&
             1 <= d.year <= 9999 && DayIs(n, d.year, d.month, d.day) && TimeOf(w[4], clock.hour, clock.minute, clock.second)
    ensures Parse(value) == Some(86_400 * n + 3_600 * clock.hour + 60 * clock.minute + clock.second)
  {
    hide ParseFields, DaysFromCivil, Words, ByteLength, Numeral, TimeOf, DayIs, Split, MonthName, AllDigits, DecimalValue, MaxDay;
    CountedIs(d, n);
    FieldsParse(value, d, clock);
    TimeRange(Words(value)[4], clock.hour, clock.minute, clock.second);
  }

  /** Exactly which texts are dates, and of which second. */
  lemma ParsesExactly(value: string, seconds: int)
    ensures Parse(value) == Some(seconds) <==> Dates(Words(value), seconds)
  {
    hide Parse, Words, ByteLength, Numeral, TimeOf, DayIs;
    if Parse(value) == Some(seconds) {
      ParsedDates(value, seconds);
    }
    if Dates(Words(value), seconds) {
      var w := Words(value);
      var d: Date, clock: Clock, n: int :|
        Numeral(w[1], d.day) && 1 <= d.month <= 12 && w[2] == Months[d.month - 1] && Numeral(w[3], d.year) &&
        1 <= d.year <= 9999 && DayIs(n, d.year, d.month, d.day) && TimeOf(w[4], clock.hour, clock.minute, clock.second) &&
        seconds == 86_400 * n + 3_600 * clock.hour + 60 * clock.minute + clock.second;
      DatesParse(value, d, clock, n);
    }
  }

  lemma CountedIs(d: Date, n: int)
    requires 1 <= d.month <= 12 && 1 <= d.year <= 9999 && DayIs(n, d.year, d.month, d.day)
    ensures 1 <= d.day <= 31 && DaysFromCivil(d.year, d.month, d.day) == Some(n) && 0 <= n < 2_932_897
  {
    hide DaysFromCivil;
    assert CountDays(n) == d;
    CountedDay(n);
    CountedBelow(n, d.year);
  }

  lemma TimeRange(text: string, hour: int, minute: int, second: int)
    requires TimeOf(text, hour, minute, second)
    ensures 0 <= hour <= 23 && 0 <= minute <= 59 && 0 <= second <= 59
  {
    hide AllDigits, DecimalValue;
  }

  lemma CountedBelow(n: nat, year: int)
    requires CountDays(n).year == year <= 9999
    ensures n < 2_932_897
  {
    FirstDayOfYearTenThousand();
    if n >= 2_932_897 {
      CountedYears(2_932_897, n);
    }
  }

  lemma {:induction false} WordsBetween(a: string, c: char, b: string)
    requires IsAsciiWhitespace(c)
    ensures Words(a + [c] + b) == Words(a) + Words(b)
    decreases |a|
  {
    hide IsAsciiWhitespace;
    var s := a + [c] + b;
    if a == "" {
      assert s == [c] + b && s[1..] == b;
    } else if IsAsciiWhitespace(a[0]) {
      assert s[0] == a[0] && s[1..] == a[1..] + [c] + b;
      WordsBetween(a[1..], c, b);
    } else {
      var n := WordLength(a);
      var word, rest := a[..n], a[n..];
      WordIs(a);
      assert a == word + rest && s == word + (rest + [c] + b);
      WordLengthOf(word, rest + [c] + b);
      assert s[..n] == word && s[n..] == rest + [c] + b;
      WordsBetween(rest, c, b);
      ConcatAssociates([word], Words(rest), Words(b));
    }
  }

  /** Words are what stands between spaces, tabs, line feeds, form feeds and carriage returns. */
  lemma WordsAre(a: string, c: char, b: string)
    ensures c == ' ' || c == '\t' || c == '\n' || c == '\U{0C}' || c == '\r' ==> Words(a + [c] + b) == Words(a) + Words(b)
    ensures a != "" && (forall d :: d in a ==> d != ' ' && d != '\t' && d != '\n' && d != '\U{0C}' && d != '\r') ==>
              Words(a) == [a]
    ensures Words("") == []
  {
    if IsAsciiWhitespace(c) {
      WordsBetween(a, c, b);
    }
    if IsWord(a) {
      WordFirst(a, "");
    }
  }

  lemma {:induction false} WordIs(a: string)
    ensures var n := WordLength(a);
            (forall c :: c in a[..n] ==> !IsAsciiWhitespace(c)) && (n < |a| ==> IsAsciiWhitespace(a[n]))
  {
    if a != "" && !IsAsciiWhitespace(a[0]) {
      WordIs(a[1..]);
      var n := WordLength(a);
      assert a[..n] == [a[0]] + a[1..][..n - 1];
    }
  }

  /** The week in calendar order from the epoch's weekday, a Thursday. */
  const Week: seq<string> := ["Thu", "Fri", "Sat", "Sun", "Mon", "Tue", "Wed"]

  /** The position in the week reached by stepping one day at a time. */
  function CountWeekday(n: nat): (k: nat)
    ensures k < 7
  {
    if n == 0 then 0 else if CountWeekday(n - 1) == 6 then 0 else CountWeekday(n - 1) + 1
  }

  lemma {:induction false} WeekdaySteps(n: nat)
    ensures CountWeekday(n) == n % 7
  {
    if n > 0 {
      WeekdaySteps(n - 1);
    }
  }

  lemma WeekdayCounts(n: nat)
    ensures Weekday(n) == Week[CountWeekday(n)]
  {
    WeekdaySteps(n);
  }

  /** The counted calendar's text for a second of it. */
  function FormatByCounting(seconds: int): string
    requires 0 <= seconds < YearTenThousand
  {
    var days := seconds / SECONDS_PER_DAY;
    var remainder := seconds % SECONDS_PER_DAY;
    YearsBelowTenThousand(days);
    FixDate(Week[CountWeekday(days)], CountDays(days), ClockText(remainder / 3_600, remainder / 60 % 60, remainder % 60))
  }

  lemma YearsBelowTenThousand(days: nat)
    ensures IsDate(CountDays(days)) && 1970 <= CountDays(days).year
    ensures days < 2_932_897 <==> CountDays(days).year <= 9999
  {
    CountedDay(days);
    CountedYears(days, days);
    FirstDayOfYearTenThousand();
    if days < 2_932_897 {
      CountedYears(days, 2_932_896);
    } else {
      CountedYears(2_932_897, days);
    }
  }

  lemma FormatCounts(seconds: int)
    requires 0 <= seconds < YearTenThousand
    ensures Format(seconds) == Some(FormatByCounting(seconds))
  {
    var days := seconds / SECONDS_PER_DAY;
    YearsBelowTenThousand(days);
    CivilThenDays(days);
    WeekdayCounts(days);
    ClockFields(seconds % SECONDS_PER_DAY);
  }

  lemma ClockFields(remainder: int)
    requires 0 <= remainder < SECONDS_PER_DAY
    ensures remainder % 3_600 / 60 == remainder / 60 % 60
    ensures 0 <= remainder / 3_600 <= 23
    ensures remainder / 3_600 * 3_600 + remainder / 60 % 60 * 60 + remainder % 60 == remainder
  {
  }

  /** `format` answers for exactly the days whose counted year, cast to `i32`, is in 1..=9999. */
  lemma FormatDomain(seconds: int, days: nat)
    requires 0 <= seconds <= MAX_U64 && days == seconds / SECONDS_PER_DAY
    ensures Format(seconds).Some? <==> 1 <= AsI32(CountDays(days).year) <= 9999
  {
    CivilThenDays(days);
  }

  lemma ParseOfInstant(value: string, d: Date, clock: Clock, days: int)
    requires ParseFields(value) == Some((d, clock))
    requires DaysFromCivil(d.year, d.month, d.day) == Some(days)
    ensures Parse(value) == InstantOf(days, clock)
  {
  }

  lemma ParseCounted(weekday: string, days: nat, clock: Clock)
    requires CountDays(days).year <= 9999 && |weekday| == 3
    requires forall c :: c in weekday ==> 'A' <= c <= 'z'
    requires 0 <= clock.hour <= 23 && 0 <= clock.minute <= 59 && 0 <= clock.second <= 59
    ensures IsDate(CountDays(days)) && 1970 <= CountDays(days).year
    ensures Parse(FixDate(weekday, CountDays(days), ClockText(clock.hour, clock.minute, clock.second)))
              == InstantOf(days, clock)
  {
    var d := CountDays(days);
    YearsBelowTenThousand(days);
    CountedDay(days);
    ParseFixDate(weekday, d, clock);
    ParseOfInstant(FixDate(weekday, d, ClockText(clock.hour, clock.minute, clock.second)), d, clock, days);
  }

  lemma ParseByCounting(seconds: int)
    requires 0 <= seconds < YearTenThousand
    ensures Parse(FormatByCounting(seconds)) == Some(seconds)
  {
    var days, remainder := seconds / SECONDS_PER_DAY, seconds % SECONDS_PER_DAY;
    var clock := Clock(remainder / 3_600, remainder / 60 % 60, remainder % 60);
    YearsBelowTenThousand(days);
    ClockFields(remainder);
    assert InstantOf(days, clock) == Some(seconds);
    WeekdayCounts(days);
    ParseCounted(Weekday(days), days, clock);
  }

  /** `parse` undoes `format` on exactly the seconds before year 10000. Past the range of `i32`
      years the cast lets `format` answer with a wrapped year, which `parse` cannot undo. */
  lemma FormatRoundTrip(seconds: int)
    requires 0 <= seconds <= MAX_U64
    ensures seconds < YearTenThousand <==>
            Format(seconds).Some? && Parse(Format(seconds).value) == Some(seconds)
  {
    if seconds < YearTenThousand {
      FormatCounts(seconds);
      ParseByCounting(seconds);
    } else if Format(seconds).Some? {
      ParseRange(Format(seconds).value);
    }
  }

  /** A day of the year 2^32 + 1970, which the cast turns into 1970. */
  lemma WrappedDay(days: nat)
    requires days == 1_568_704_592_610
    ensures CountDays(days) == Date(U32_LIMIT + 1970, 1, 1)
  {
    var d := Date(U32_LIMIT + 1970, 1, 1);
    assert HasDayNumber(d, 10_737_423, 65, days);
    CountedDate(d, 10_737_423, 65, days);
  }

  /** A day past year 10000 and within `u64` seconds whose counted year the cast turns into 1970: by
      `FormatDomain` each of its seconds is written, and by `FormatRoundTrip` none is read back. */
  lemma FormatWrapsYear(days: nat)
    requires days == 1_568_704_592_610
    ensures AsI32(CountDays(days).year) == 1970 < 10_000 <= CountDays(days).year
    ensures YearTenThousand < 86_400 * days && 86_400 * days + 86_399 <= MAX_U64
  {
    hide CountDays, AsI32;
    WrappedDay(days);
    WrappedYear();
  }

  lemma WrappedYear()
    ensures AsI32(U32_LIMIT + 1970) == 1970
  {
  }
}
