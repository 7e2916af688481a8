/**
 RFC 3339 UTC timestamps and the era arithmetic behind them
 (crates/whirl-core/src/protocol.rs:990-1097).
 */
module Calendar {
  import opened Basics

  datatype Civil = Civil(year: int, month: int, day: int)

  /** Days from the start of an era (a 1 March) to the start of its year `y`. */
  function YearStart(y: int): int { 365 * y + y / 4 - y / 100 }

  /** The year of a 400-year era that a day of the era falls in. */
  function YearOfEra(dayOfEra: int): int
  {
    (dayOfEra - dayOfEra / 1_460 + dayOfEra / 36_524 - dayOfEra / 146_096) / 365
  }

  /** Days from 1 March to the first of the month numbered from March = 0. */
  function MonthStart(monthPrime: int): int { (153 * monthPrime + 2) / 5 }

  function MonthOfDay(dayOfYear: int): int { (5 * dayOfYear + 2) / 153 }

  /** `civil_from_days`: the date a day number names. */
  function CivilFromDays(days: int): Civil
  {
    var shifted := days + 719_468;
    var era := shifted / 146_097;
    var dayOfEra := shifted % 146_097;
    var yearOfEra := YearOfEra(dayOfEra);
    var year := yearOfEra + era * 400;
    var dayOfYear := dayOfEra - YearStart(yearOfEra);
    var monthPrime := MonthOfDay(dayOfYear);
    var day := dayOfYear - MonthStart(monthPrime) + 1;
    var month := if monthPrime < 10 then monthPrime + 3 else monthPrime - 9;
    Civil(if month <= 2 then year + 1 else year, month, day)
  }

  /** `days_from_civil`. */
  function DaysFromCivil(c: Civil): int
  {
    var year := if c.month <= 2 then c.year - 1 else c.year;
    var era := year / 400;
    var yearOfEra := year - era * 400;
    var monthPrime := if c.month > 2 then c.month - 3 else c.month + 9;
    var dayOfYear := MonthStart(monthPrime) + c.day - 1;
    var dayOfEra := YearStart(yearOfEra) + dayOfYear;
    era * 146_097 + dayOfEra - 719_468
  }

  predicate IsLeap(year: int) { year % 4 == 0 && (year % 100 != 0 || year % 400 == 0) }

  function DaysInMonth(year: int, month: int): int
  {
    if month in {1, 3, 5, 7, 8, 10, 12} then 31
    else if month in {4, 6, 9, 11} then 30
    else if month == 2 && IsLeap(year) then 29
    else if month == 2 then 28
    else 0
  }

  predicate ValidDate(c: Civil)
  {
    1 <= c.month <= 12 && 1 <= c.day <= DaysInMonth(c.year, c.month)
  }

  // --- The year of the era ---------------------------------------------------

  /** Does the March-based year `y` of an era end in a leap day? */
  predicate LongYear(y: int) { (y + 1) % 4 == 0 && ((y + 1) % 100 != 0 || (y + 1) % 400 == 0) }

  /** The closed formula picks exactly the year whose days contain `dayOfEra`. */
  lemma YearOfEraCorrect(y: int, d: int)
    requires 0 <= y < 400
    requires 0 <= d < 365 || (d == 365 && LongYear(y))
    ensures 0 <= YearStart(y) + d < 146_097
    ensures YearOfEra(YearStart(y) + d) == y
  {
    var century, quad, rest := y / 100, y % 100 / 4, y % 4;
    assert y == 100 * century + 4 * quad + rest && y / 4 == 25 * century + quad;
    var doe := YearStart(y) + d;
    assert doe == 36_524 * century + 1_461 * quad + 365 * rest + d;
    CenturyCorrection(century, quad, rest, d);
    var carry := (24 * century + quad + 365 * rest + d) / 1_460;
    assert doe == 1_460 * (25 * century + quad) + (24 * century + quad + 365 * rest + d);
    assert doe / 1_460 == 25 * century + quad + carry;
    assert 0 <= d - carry <= 364;
    assert doe - doe / 1_460 + century == 365 * y + (d - carry);
  }

  /** The two leap-century terms of the formula cancel down to the century. */
  lemma CenturyCorrection(century: int, quad: int, rest: int, d: int)
    requires 0 <= century < 4 && 0 <= quad < 25 && 0 <= rest < 4
    requires 0 <= d < 365 || (d == 365 && LongYear(100 * century + 4 * quad + rest))
    ensures var doe := 36_524 * century + 1_461 * quad + 365 * rest + d;
            0 <= doe < 146_097 && doe / 36_524 - doe / 146_096 == century
  {
    var t := 1_461 * quad + 365 * rest + d;
    if d == 365 {
      assert rest == 3;
      assert century < 3 ==> quad < 24;
    }
    assert 0 <= t <= 36_524;
  }

  lemma YearStartParts(century: int, quad: int, rest: int)
    requires 0 <= century < 4 && 0 <= quad < 25 && 0 <= rest < 4
    ensures YearStart(100 * century + 4 * quad + rest) == 36_524 * century + 1_461 * quad + 365 * rest
  {
    var y := 100 * century + 4 * quad + rest;
    assert y / 100 == century && y / 4 == 25 * century + quad;
  }

  lemma SplitCentury(doe: int) returns (century: int, t: int)
    requires 0 <= doe < 146_097
    ensures doe == 36_524 * century + t && 0 <= century < 4
    ensures 0 <= t <= 36_524 && (t == 36_524 ==> century == 3)
  {
    century := if doe == 146_096 then 3 else doe / 36_524;
    t := doe - 36_524 * century;
  }

  lemma SplitQuad(t: int) returns (quad: int, rest: int, d: int)
    requires 0 <= t <= 36_524
    ensures t == 1_461 * quad + 365 * rest + d && 0 <= quad < 25 && 0 <= rest < 4
    ensures 0 <= d < 365 || (d == 365 && rest == 3 && (quad == 24 ==> t == 36_524))
  {
    quad := t / 1_461;
    var u := t - 1_461 * quad;
    rest := if u == 1_460 then 3 else u / 365;
    d := u - 365 * rest;
  }

  /** Every day of an era lies in exactly the year the formula names. */
  lemma YearOfEraSplits(doe: int) returns (y: int, d: int)
    requires 0 <= doe < 146_097
    ensures YearOfEra(doe) == y && doe == YearStart(y) + d
    ensures 0 <= y < 400 && (0 <= d < 365 || (d == 365 && LongYear(y)))
  {
    var century, t := SplitCentury(doe);
    var quad, rest, day := SplitQuad(t);
    d := day;
    y := 100 * century + 4 * quad + rest;
    YearStartParts(century, quad, rest);
    if d == 365 {
      assert y + 1 == 100 * century + 4 * (quad + 1);
      assert quad < 24 ==> (y + 1) % 100 != 0;
      assert quad == 24 ==> y + 1 == 400;
    }
    YearOfEraCorrect(y, d);
  }

  // --- The month of the year -------------------------------------------------

  lemma MonthPrimeCorrect(monthPrime: int, dayOfYear: int)
    requires 0 <= monthPrime < 12
    requires MonthStart(monthPrime) <= dayOfYear < MonthStart(monthPrime + 1)
    ensures MonthOfDay(dayOfYear) == monthPrime
  {
  }

  lemma MonthPrimeSplits(dayOfYear: int) returns (m: int)
    requires 0 <= dayOfYear <= 365
    ensures 0 <= m < 12 && MonthStart(m) <= dayOfYear < MonthStart(m + 1)
  {
    m := MonthOfDay(dayOfYear);
  }

  function MonthPrime(month: int): int { if month > 2 then month - 3 else month + 9 }

  function MarchYear(c: Civil): int { if c.month <= 2 then c.year - 1 else c.year }

  function DayOfYear(c: Civil): int { MonthStart(MonthPrime(c.month)) + c.day - 1 }

  /** Days from 0000-03-01 to the 1 March of a year, in closed form. */
  function AbsoluteYearStart(year: int): int { 365 * year + year / 4 - year / 100 + year / 400 }

  /** A valid date lies inside its month and inside its March-based year. */
  lemma DateInYear(c: Civil)
    requires ValidDate(c)
    ensures 0 <= MonthPrime(c.month) < 12
    ensures MonthStart(MonthPrime(c.month)) <= DayOfYear(c) < MonthStart(MonthPrime(c.month) + 1)
    ensures 0 <= DayOfYear(c) < 365 || (DayOfYear(c) == 365 && LongYear(MarchYear(c)))
    ensures DayOfYear(c) == 365 <==> c.month == 2 && c.day == 29
  {
  }

  lemma Modulo4(q: int, x: int)
    ensures (4 * q + x) % 4 == x % 4
  {
  }

  lemma Modulo100(q: int, x: int)
    ensures (100 * q + x) % 100 == x % 100
  {
  }

  lemma Modulo400(q: int, x: int)
    ensures (400 * q + x) % 400 == x % 400
  {
  }

  lemma LongYearPeriod(year: int)
    ensures LongYear(year) <==> LongYear(year % 400)
  {
    assert year + 1 == 400 * (year / 400) + (year % 400 + 1);
    Modulo4(100 * (year / 400), year % 400 + 1);
    Modulo100(4 * (year / 400), year % 400 + 1);
    Modulo400(year / 400, year % 400 + 1);
  }

  lemma DaysClosedForm(c: Civil)
    requires ValidDate(c)
    ensures DaysFromCivil(c) == AbsoluteYearStart(MarchYear(c)) + DayOfYear(c) - 719_468
  {
    var y := MarchYear(c);
    var q, r := y / 400, y % 400;
    assert y == 400 * q + r;
    assert y / 4 == 100 * q + r / 4 && y / 100 == 4 * q + r / 100;
  }

  // --- The two directions are inverse ----------------------------------------

  lemma EraArithmetic(era: int, doe: int)
    requires 0 <= doe < 146_097
    ensures (era * 146_097 + doe) / 146_097 == era && (era * 146_097 + doe) % 146_097 == doe
  {
  }

  /** `CivilFromDays` read backwards from its own decomposition. */
  lemma CivilFromParts(era: int, yoe: int, mp: int, d: int)
    requires 0 <= yoe < 400 && (0 <= d < 365 || (d == 365 && LongYear(yoe)))
    requires 0 <= mp < 12 && MonthStart(mp) <= d < MonthStart(mp + 1)
    ensures var month := if mp < 10 then mp + 3 else mp - 9;
            CivilFromDays(era * 146_097 + YearStart(yoe) + d - 719_468)
            == Civil(yoe + era * 400 + (if month <= 2 then 1 else 0), month, d - MonthStart(mp) + 1)
  {
    hide YearStart, YearOfEra, LongYear, MonthOfDay;
    YearOfEraCorrect(yoe, d);
    EraArithmetic(era, YearStart(yoe) + d);
    MonthPrimeCorrect(mp, d);
  }

  lemma DaysFromParts(c: Civil)
    ensures var y := MarchYear(c);
            DaysFromCivil(c) == y / 400 * 146_097 + YearStart(y % 400) + DayOfYear(c) - 719_468
  {
  }

  /** Formatting a date's day number gives the date back, for every valid date. */
  lemma CivilOfDays(c: Civil)
    requires ValidDate(c)
    ensures CivilFromDays(DaysFromCivil(c)) == c
  {
    assert 1 <= c.month <= 12;
    hide YearStart, LongYear, CivilFromDays, DaysFromCivil, ValidDate, MonthStart;
    var y := MarchYear(c);
    DateInYear(c);
    LongYearPeriod(y);
    DaysFromParts(c);
    CivilFromWhole(c, y / 400, y % 400);
  }

  lemma CivilFromWhole(c: Civil, era: int, yoe: int)
    requires 1 <= c.month <= 12 && 0 <= yoe < 400 && MarchYear(c) == yoe + era * 400
    requires 0 <= DayOfYear(c) < 365 || (DayOfYear(c) == 365 && LongYear(yoe))
    requires MonthStart(MonthPrime(c.month)) <= DayOfYear(c) < MonthStart(MonthPrime(c.month) + 1)
    ensures CivilFromDays(era * 146_097 + YearStart(yoe) + DayOfYear(c) - 719_468) == c
  {
    hide YearStart, LongYear, CivilFromDays, MonthStart;
    CivilFromParts(era, yoe, MonthPrime(c.month), DayOfYear(c));
  }

  lemma ValidFromParts(year: int, mp: int, d: int)
    requires 0 <= d < 365 || (d == 365 && LongYear(year))
    requires 0 <= mp < 12 && MonthStart(mp) <= d < MonthStart(mp + 1)
    ensures var month := if mp < 10 then mp + 3 else mp - 9;
            ValidDate(Civil(if month <= 2 then year + 1 else year, month, d - MonthStart(mp) + 1))
  {
  }

  lemma DaysOfParts(era: int, yoe: int, mp: int, d: int)
    requires 0 <= yoe < 400 && (0 <= d < 365 || (d == 365 && LongYear(yoe)))
    requires 0 <= mp < 12 && MonthStart(mp) <= d < MonthStart(mp + 1)
    ensures var days := era * 146_097 + YearStart(yoe) + d - 719_468;
            ValidDate(CivilFromDays(days)) && DaysFromCivil(CivilFromDays(days)) == days
  {
    hide YearStart, LongYear, CivilFromDays, DaysFromCivil, ValidDate;
    CivilFromParts(era, yoe, mp, d);
    var c := CivilFromDays(era * 146_097 + YearStart(yoe) + d - 719_468);
    var y := yoe + era * 400;
    EraYears(era, yoe);
    LongYearPeriod(y);
    ValidFromParts(y, mp, d);
    DaysFromParts(c);
    assert MarchYear(c) == y && MonthPrime(c.month) == mp && DayOfYear(c) == d;
  }

  /** Every day number names a valid date, and that date's day number is the one it came from. */
  lemma DaysOfCivil(days: int)
    ensures ValidDate(CivilFromDays(days))
    ensures DaysFromCivil(CivilFromDays(days)) == days
  {
    hide YearStart, YearOfEra, LongYear, CivilFromDays, DaysFromCivil, ValidDate, MonthStart;
    var era, doe := (days + 719_468) / 146_097, (days + 719_468) % 146_097;
    var yoe, d := YearOfEraSplits(doe);
    var mp := MonthPrimeSplits(d);
    DaysOfParts(era, yoe, mp, d);
  }

  lemma EraYears(era: int, yoe: int)
    requires 0 <= yoe < 400
    ensures (yoe + era * 400) / 400 == era && (yoe + era * 400) % 400 == yoe
  {
  }

  // --- Order -----------------------------------------------------------------

  predicate Earlier(a: Civil, b: Civil)
  {
    a.year < b.year || (a.year == b.year && (a.month < b.month || (a.month == b.month && a.day < b.day)))
  }

  lemma YearLength(y: int)
    ensures AbsoluteYearStart(y + 1) == AbsoluteYearStart(y) + 365 + (if LongYear(y) then 1 else 0)
  {
    CarryAt4(y);
    CarryAt100(y);
    CarryAt400(y);
    Divisors(y + 1);
  }

  lemma CarryAt4(y: int)
    ensures (y + 1) / 4 - y / 4 == (if (y + 1) % 4 == 0 then 1 else 0)
  {
  }

  lemma CarryAt100(y: int)
    ensures (y + 1) / 100 - y / 100 == (if (y + 1) % 100 == 0 then 1 else 0)
  {
  }

  lemma CarryAt400(y: int)
    ensures (y + 1) / 400 - y / 400 == (if (y + 1) % 400 == 0 then 1 else 0)
  {
  }

  lemma Divisors(k: int)
    ensures (k % 400 == 0 ==> k % 100 == 0) && (k % 100 == 0 ==> k % 4 == 0)
  {
    assert k % 100 == 0 ==> k == 4 * (25 * (k / 100));
  }

  /** March-based years do not overlap. */
  lemma YearsDisjoint(y: int, d: int, z: int)
    requires y < z && (0 <= d < 365 || (d == 365 && LongYear(y)))
    ensures AbsoluteYearStart(y) + d < AbsoluteYearStart(z)
  {
    hide AbsoluteYearStart, LongYear;
    YearLength(y);
    YearStartMonotone(y + 1, z);
  }

  lemma {:induction false} YearStartMonotone(y: int, z: int)
    requires y <= z
    ensures AbsoluteYearStart(y) <= AbsoluteYearStart(z)
  {
    var dy := z - y;
    assert z / 4 >= y / 4 && z / 400 >= y / 400;
    assert z / 100 <= y / 100 + dy;
  }

  /** Day numbers order exactly as the dates do. */
  lemma DaysOrder(a: Civil, b: Civil)
    requires ValidDate(a) && ValidDate(b)
    ensures DaysFromCivil(a) < DaysFromCivil(b) <==> Earlier(a, b)
  {
    if Earlier(a, b) {
      EarlierDays(a, b);
    } else if a != b {
      EarlierDays(b, a);
    }
  }

  lemma EarlierDays(a: Civil, b: Civil)
    requires ValidDate(a) && ValidDate(b) && Earlier(a, b)
    ensures DaysFromCivil(a) < DaysFromCivil(b)
  {
    hide LongYear, AbsoluteYearStart, DaysFromCivil;
    DaysClosedForm(a);
    DaysClosedForm(b);
    DateInYear(a);
    DateInYear(b);
    if MarchYear(a) < MarchYear(b) {
      YearsDisjoint(MarchYear(a), DayOfYear(a), MarchYear(b));
    }
  }

  // --- Timestamps ------------------------------------------------------------

  const SECONDS_PER_DAY := 86_400
  /** 0000-01-01T00:00:00Z and 9999-12-31T23:59:59Z. */
  const FIRST_SECOND := -62_167_219_200
  const LAST_SECOND := 253_402_300_799

  predicate FourDigitYear(seconds: int) { FIRST_SECOND <= seconds <= LAST_SECOND }

  function TimeText(hour: int, minute: int, second: int): string
  {
    Padded(hour, 2) + (":" + (Padded(minute, 2) + (":" + (Padded(second, 2) + "Z"))))
  }

  function ClockText(year: int, month: int, day: int, second: int): string
  {
    Padded(year, 4) + ("-" + (Padded(month, 2) + ("-" + (Padded(day, 2)
    + ("T" + TimeText(second / 3_600, second % 3_600 / 60, second % 60))))))
  }

  /** `rfc3339_utc`. */
  function Rfc3339(seconds: int): string
  {
    var c := CivilFromDays(seconds / SECONDS_PER_DAY);
    ClockText(c.year, c.month, c.day, seconds % SECONDS_PER_DAY)
  }

  /** The digits of a fixed range of the text, or `None` if some byte of it is not one. */
  function Digits(text: string, from: nat, to: nat): Option<nat>
    requires from <= to <= |text|
  {
    if AllDigits(text[from..to]) then Some(ValueOf(text[from..to])) else None
  }

  /** `parse_rfc3339_utc`, on the bytes of the text. */
  function ParseRfc3339(text: string): Option<int>
  {
    if |text| != 20 then None
    else if text[4] != '-' || text[7] != '-' || text[10] != 'T' || text[19] != 'Z' then None
    else if text[13] != ':' || text[16] != ':' then None
    else
      var year, month, day := Digits(text, 0, 4), Digits(text, 5, 7), Digits(text, 8, 10);
      var hour, minute, second := Digits(text, 11, 13), Digits(text, 14, 16), Digits(text, 17, 19);
      if year.None? || month.None? || day.None? || hour.None? || minute.None? || second.None? then None
      else if !(1 <= month.value <= 12) || !(minute.value <= 59) || !(second.value <= 60) then None
      else if hour.value > 23 || day.value < 1 || day.value > DaysInMonth(year.value, month.value) then None
      else Some(DaysFromCivil(Civil(year.value, month.value, day.value)) * SECONDS_PER_DAY
                + hour.value * 3_600 + minute.value * 60 + second.value)
  }

  lemma YearBounds()
    ensures ValidDate(Civil(0, 1, 1)) && DaysFromCivil(Civil(0, 1, 1)) == -719_528
    ensures ValidDate(Civil(9999, 12, 31)) && DaysFromCivil(Civil(9999, 12, 31)) == 2_932_896
  {
    assert MonthStart(10) == 306 && MonthStart(9) == 275;
    assert -1 / 400 == -1 && 9999 / 400 == 24;
    assert YearStart(399) == 145_731;
    hide YearStart, MonthStart;
    DaysFromParts(Civil(0, 1, 1));
    DaysFromParts(Civil(9999, 12, 31));
  }

  /** The dates whose year prints with four digits are the seconds of the stated range. */
  lemma FourDigitYears(seconds: int)
    ensures FourDigitYear(seconds) <==> 0 <= CivilFromDays(seconds / SECONDS_PER_DAY).year <= 9999
  {
    hide CivilFromDays, DaysFromCivil;
    var days := seconds / SECONDS_PER_DAY;
    DaysOfCivil(days);
    var c := CivilFromDays(days);
    YearBounds();
    DaysOrder(c, Civil(0, 1, 1));
    DaysOrder(Civil(9999, 12, 31), c);
    assert days < -719_528 <==> seconds < FIRST_SECOND;
    assert days > 2_932_896 <==> seconds > LAST_SECOND;
  }

  /** Where the fixed-width fields of a time land in its nine bytes. */
  lemma TimePositions(h: string, mi: string, s: string)
    requires |h| == |mi| == |s| == 2
    ensures var t := h + (":" + (mi + (":" + (s + "Z"))));
            |t| == 9 && t[2] == ':' && t[5] == ':' && t[8] == 'Z'
            && t[0..2] == h && t[3..5] == mi && t[6..8] == s
  {
  }

  /** Where the fixed-width fields of a date land, before a nine-byte time. */
  lemma DatePositions(y: string, mo: string, d: string, time: string)
    requires |y| == 4 && |mo| == |d| == 2 && |time| == 9
    ensures var t := y + ("-" + (mo + ("-" + (d + ("T" + time)))));
            |t| == 20 && t[4] == '-' && t[7] == '-' && t[10] == 'T'
            && t[0..4] == y && t[5..7] == mo && t[8..10] == d && t[11..20] == time
  {
  }

  /** The twenty bytes of a timestamp with a four-digit year, field by field. */
  lemma ClockLayout(year: nat, month: nat, day: nat, second: nat)
    requires year <= 9999 && month <= 99 && day <= 99 && second < SECONDS_PER_DAY
    ensures var t := ClockText(year, month, day, second);
            && |t| == 20
            && t[4] == '-' && t[7] == '-' && t[10] == 'T' && t[13] == ':' && t[16] == ':' && t[19] == 'Z'
            && Digits(t, 0, 4) == Some(year) && Digits(t, 5, 7) == Some(month) && Digits(t, 8, 10) == Some(day)
            && Digits(t, 11, 13) == Some(second / 3_600) && Digits(t, 14, 16) == Some(second % 3_600 / 60)
            && Digits(t, 17, 19) == Some(second % 60)
  {
    hide Padded, Pow10, ValueOf;
    var hour, minute, sec := second / 3_600, second % 3_600 / 60, second % 60;
    Pow10Values();
    PaddedFits(year, 4);
    PaddedFits(month, 2);
    PaddedFits(day, 2);
    PaddedFits(hour, 2);
    PaddedFits(minute, 2);
    PaddedFits(sec, 2);
    var time := TimeText(hour, minute, sec);
    TimePositions(Padded(hour, 2), Padded(minute, 2), Padded(sec, 2));
    DatePositions(Padded(year, 4), Padded(month, 2), Padded(day, 2), time);
    var t := ClockText(year, month, day, second);
    assert t[13] == t[11..20][2] && t[16] == t[11..20][5] && t[19] == t[11..20][8];
    assert t[11..13] == t[11..20][0..2] && t[14..16] == t[11..20][3..5] && t[17..19] == t[11..20][6..8];
  }

  /** A year outside 0..9999 never leaves a text the parser accepts. */
  lemma OddYearText(year: int, month: nat, day: nat, second: nat)
    requires !(0 <= year <= 9999) && month <= 99 && day <= 99 && second < SECONDS_PER_DAY
    ensures ParseRfc3339(ClockText(year, month, day, second)) == None
  {
    var t := ClockText(year, month, day, second);
    if year < 0 {
      assert t[0] == '-';
      if |t| == 20 {
        assert t[0..4][0] == '-';
        assert Digits(t, 0, 4) == None;
      }
    } else {
      Pow10Values();
      DecimalLength(year, 4);
      PaddedFits(month, 2);
      PaddedFits(day, 2);
      PaddedFits(second / 3_600, 2);
      PaddedFits(second % 3_600 / 60, 2);
      PaddedFits(second % 60, 2);
      assert |t| > 20;
    }
  }

  /**
   Main result: what the formatter prints is read back as the same instant exactly when its year
   has four digits; any other instant prints a text the parser refuses.
   */
  lemma TimestampRoundTrip(seconds: int)
    ensures ParseRfc3339(Rfc3339(seconds)) == if FourDigitYear(seconds) then Some(seconds) else None
  {
    hide CivilFromDays, DaysFromCivil, ClockText, Digits;
    var days, s := seconds / SECONDS_PER_DAY, seconds % SECONDS_PER_DAY;
    DaysOfCivil(days);
    FourDigitYears(seconds);
    var c := CivilFromDays(days);
    if FourDigitYear(seconds) {
      ClockLayout(c.year, c.month, c.day, s);
    } else {
      OddYearText(c.year, c.month, c.day, s);
    }
  }

  /** The text of a leap second, the one accepted text the formatter never prints. */
  predicate LeapSecond(text: string)
    requires |text| == 20
  {
    text[17..19] == "60"
  }

  /** Main result: formatting what the parser accepted gives the text back, except for second 60. */
  lemma ParsedTextIsCanonical(text: string)
    requires ParseRfc3339(text).Some?
    ensures Rfc3339(ParseRfc3339(text).value) == text <==> !LeapSecond(text)
  {
    hide CivilFromDays, DaysFromCivil, ClockText, Digits;
    var seconds := ParseRfc3339(text).value;
    var date := Civil(Digits(text, 0, 4).value, Digits(text, 5, 7).value, Digits(text, 8, 10).value);
    var h, m, s := Digits(text, 11, 13).value, Digits(text, 14, 16).value, Digits(text, 17, 19).value;
    SecondField(text, s);
    if s < 60 {
      var clock := h * 3_600 + m * 60 + s;
      assert seconds / SECONDS_PER_DAY == DaysFromCivil(date) && seconds % SECONDS_PER_DAY == clock;
      assert clock / 3_600 == h && clock % 3_600 / 60 == m && clock % 60 == s;
      CivilOfDays(date);
      TextBound(text);
      ClockLayout(date.year, date.month, date.day, clock);
      SameFields(text, ClockText(date.year, date.month, date.day, clock));
    } else if Rfc3339(seconds) == text {
      TimestampRoundTrip(seconds);
      var c := CivilFromDays(seconds / SECONDS_PER_DAY);
      DaysOfCivil(seconds / SECONDS_PER_DAY);
      FourDigitYears(seconds);
      ClockLayout(c.year, c.month, c.day, seconds % SECONDS_PER_DAY);
      assert false;
    }
  }

  lemma FieldIs(text: string, from: nat, upTo: nat, field: string)
    requires from <= upTo <= |text| && text[from..upTo] == field && AllDigits(field)
    ensures Digits(text, from, upTo) == Some(ValueOf(field))
  {
  }

  lemma TwoDigits(a: char, b: char)
    requires IsDigit(a) && IsDigit(b)
    ensures AllDigits([a, b]) && ValueOf([a, b]) == 10 * DigitValue(a) + DigitValue(b)
  {
    assert [a, b][..1] == [a] && [a][..0] == [];
    assert ValueOf([]) == 0 && ValueOf([a]) == DigitValue(a);
  }

  lemma FourDigits(a: char, b: char, c: char, d: char)
    requires IsDigit(a) && IsDigit(b) && IsDigit(c) && IsDigit(d)
    ensures AllDigits([a, b, c, d])
    ensures
      ValueOf([a, b, c, d]) == 1000 * DigitValue(a) + 100 * DigitValue(b) + 10 * DigitValue(c) + DigitValue(d)
  {
    TwoDigits(a, b);
    assert [a, b, c, d][..3] == [a, b, c] && [a, b, c][..2] == [a, b];
    assert ValueOf([a, b, c]) == 10 * ValueOf([a, b]) + DigitValue(c);
  }

  /** The last second of 2026 with a leap second, read. */
  lemma LeapSecondIsRead()
    ensures ParseRfc3339("2026-12-31T23:59:60Z") == Some(1798761600)
  {
    hide ValueOf, Digits;
    var t := "2026-12-31T23:59:60Z";
    FourDigits('2', '0', '2', '6');
    TwoDigits('1', '2');
    TwoDigits('3', '1');
    TwoDigits('2', '3');
    TwoDigits('5', '9');
    TwoDigits('6', '0');
    FieldIs(t, 0, 4, ['2', '0', '2', '6']);
    FieldIs(t, 5, 7, ['1', '2']);
    FieldIs(t, 8, 10, ['3', '1']);
    FieldIs(t, 11, 13, ['2', '3']);
    FieldIs(t, 14, 16, ['5', '9']);
    FieldIs(t, 17, 19, ['6', '0']);
    assert DaysFromCivil(Civil(2026, 12, 31)) == 20818;
  }

  lemma NewYearIsRead()
    ensures ParseRfc3339("2027-01-01T00:00:00Z") == Some(1798761600)
  {
    hide ValueOf, Digits;
    var t := "2027-01-01T00:00:00Z";
    FourDigits('2', '0', '2', '7');
    TwoDigits('0', '1');
    TwoDigits('0', '0');
    FieldIs(t, 0, 4, ['2', '0', '2', '7']);
    FieldIs(t, 5, 7, ['0', '1']);
    FieldIs(t, 8, 10, ['0', '1']);
    FieldIs(t, 11, 13, ['0', '0']);
    FieldIs(t, 14, 16, ['0', '0']);
    FieldIs(t, 17, 19, ['0', '0']);
    assert DaysFromCivil(Civil(2027, 1, 1)) == 20819;
  }

  /** The failing input: an accepted leap second prints as the first second of the next day. */
  lemma LeapSecondReprints()
    ensures ParseRfc3339("2026-12-31T23:59:60Z").Some?
    ensures Rfc3339(ParseRfc3339("2026-12-31T23:59:60Z").value) == "2027-01-01T00:00:00Z"
  {
    hide ParseRfc3339, Rfc3339;
    LeapSecondIsRead();
    NewYearIsRead();
    var t := "2027-01-01T00:00:00Z";
    assert t[17..19][0] == '0' && "60"[0] == '6';
    ParsedTextIsCanonical(t);
  }

  lemma SecondField(text: string, s: nat)
    requires |text| == 20 && Digits(text, 17, 19) == Some(s)
    ensures s == 60 <==> LeapSecond(text)
  {
    var field := text[17..19];
    assert ValueOf("60") == 60 by { assert "60"[..1] == "6" && "6"[..0] == ""; }
    NumeralOrder(field, "60");
  }

  lemma TextBound(text: string)
    requires |text| == 20 && Digits(text, 0, 4).Some?
    ensures Digits(text, 0, 4).value <= 9999
  {
    Pow10Values();
    ValueBound(text[0..4]);
  }

  ghost predicate SameField(a: string, b: string, from: nat, to: nat)
    requires |a| == |b| == 20 && from <= to <= 20
  {
    Digits(a, from, to).Some? && Digits(a, from, to) == Digits(b, from, to)
  }

  /** Two twenty-byte texts with the same separators and the same field values are the same text. */
  lemma SameFields(a: string, b: string)
    requires |a| == |b| == 20
    requires SameField(a, b, 0, 4) && SameField(a, b, 5, 7) && SameField(a, b, 8, 10)
    requires SameField(a, b, 11, 13) && SameField(a, b, 14, 16) && SameField(a, b, 17, 19)
    requires forall i :: i in {4, 7, 10, 13, 16, 19} ==> a[i] == b[i]
    ensures a == b
  {
    NumeralOrder(a[0..4], b[0..4]);
    NumeralOrder(a[5..7], b[5..7]);
    NumeralOrder(a[8..10], b[8..10]);
    NumeralOrder(a[11..13], b[11..13]);
    NumeralOrder(a[14..16], b[14..16]);
    NumeralOrder(a[17..19], b[17..19]);
    forall i | 0 <= i < 20
      ensures a[i] == b[i]
    {
      if i < 4 { assert a[i] == a[0..4][i] && b[i] == b[0..4][i]; }
      else if 5 <= i < 7 { assert a[i] == a[5..7][i - 5] && b[i] == b[5..7][i - 5]; }
      else if 8 <= i < 10 { assert a[i] == a[8..10][i - 8] && b[i] == b[8..10][i - 8]; }
      else if 11 <= i < 13 { assert a[i] == a[11..13][i - 11] && b[i] == b[11..13][i - 11]; }
      else if 14 <= i < 16 { assert a[i] == a[14..16][i - 14] && b[i] == b[14..16][i - 14]; }
      else if 17 <= i < 19 { assert a[i] == a[17..19][i - 17] && b[i] == b[17..19][i - 17]; }
    }
  }

  // --- The eviction key ------------------------------------------------------

  lemma FieldThenText(x: nat, y: nat, width: nat, a: string, b: string)
    requires 1 <= width && x < Pow10(width) && y < Pow10(width)
    ensures LexLess(Padded(x, width) + a, Padded(y, width) + b) <==> x < y || (x == y && LexLess(a, b))
  {
    PaddedFits(x, width);
    PaddedFits(y, width);
    FieldOrder(Padded(x, width), Padded(y, width), a, b);
  }

  lemma TimeTextOrder(h: nat, m: nat, s: nat, h': nat, m': nat, s': nat)
    requires h < 100 && m < 100 && s < 100 && h' < 100 && m' < 100 && s' < 100
    ensures LexLess(TimeText(h, m, s), TimeText(h', m', s'))
            <==> h < h' || (h == h' && (m < m' || (m == m' && s < s')))
  {
    hide Padded, LexLess;
    Pow10Values();
    var x, x' := Padded(s, 2) + "Z", Padded(s', 2) + "Z";
    var y, y' := Padded(m, 2) + (":" + x), Padded(m', 2) + (":" + x');
    FieldThenText(h, h', 2, ":" + y, ":" + y');
    LexCommonPrefix(":", y, y');
    FieldThenText(m, m', 2, ":" + x, ":" + x');
    LexCommonPrefix(":", x, x');
    FieldThenText(s, s', 2, "Z", "Z");
    LexIrreflexive("Z");
  }

  lemma ClockOrder(s: nat, u: nat)
    requires s < SECONDS_PER_DAY && u < SECONDS_PER_DAY
    ensures LexLess(TimeText(s / 3_600, s % 3_600 / 60, s % 60), TimeText(u / 3_600, u % 3_600 / 60, u % 60)) <==> s < u
  {
    hide TimeText;
    TimeTextOrder(s / 3_600, s % 3_600 / 60, s % 60, u / 3_600, u % 3_600 / 60, u % 60);
    assert s == s / 3_600 * 3_600 + s % 3_600 / 60 * 60 + s % 60;
    assert u == u / 3_600 * 3_600 + u % 3_600 / 60 * 60 + u % 60;
  }

  lemma DateOrder(a: Civil, b: Civil, s: nat, u: nat)
    requires 0 <= a.year <= 9999 && 0 <= b.year <= 9999 && ValidDate(a) && ValidDate(b)
    requires s < SECONDS_PER_DAY && u < SECONDS_PER_DAY
    ensures LexLess(ClockText(a.year, a.month, a.day, s), ClockText(b.year, b.month, b.day, u))
            <==> Earlier(a, b) || (a == b && s < u)
  {
    hide Padded, LexLess;
    Pow10Values();
    var timeA, timeB := TimeText(s / 3_600, s % 3_600 / 60, s % 60), TimeText(u / 3_600, u % 3_600 / 60, u % 60);
    var dayA, dayB := Padded(a.day, 2) + ("T" + timeA), Padded(b.day, 2) + ("T" + timeB);
    var monthA, monthB := Padded(a.month, 2) + ("-" + dayA), Padded(b.month, 2) + ("-" + dayB);
    FieldThenText(a.year, b.year, 4, "-" + monthA, "-" + monthB);
    LexCommonPrefix("-", monthA, monthB);
    FieldThenText(a.month, b.month, 2, "-" + dayA, "-" + dayB);
    LexCommonPrefix("-", dayA, dayB);
    FieldThenText(a.day, b.day, 2, "T" + timeA, "T" + timeB);
    LexCommonPrefix("T", timeA, timeB);
    ClockOrder(s, u);
  }

  /**
   Main result: timestamps order as texts exactly as the instants do, which is what lets the sweep
   compare `last_used` as a string.
   */
  lemma TimestampsSort(s: int, u: int)
    requires FourDigitYear(s) && FourDigitYear(u)
    ensures LexLess(Rfc3339(s), Rfc3339(u)) <==> s < u
  {
    hide CivilFromDays, DaysFromCivil, ClockText, LexLess;
    var a, b := CivilFromDays(s / SECONDS_PER_DAY), CivilFromDays(u / SECONDS_PER_DAY);
    DaysOfCivil(s / SECONDS_PER_DAY);
    DaysOfCivil(u / SECONDS_PER_DAY);
    FourDigitYears(s);
    FourDigitYears(u);
    DateOrder(a, b, s % SECONDS_PER_DAY, u % SECONDS_PER_DAY);
    DaysOrder(a, b);
    assert s == s / SECONDS_PER_DAY * SECONDS_PER_DAY + s % SECONDS_PER_DAY;
    assert u == u / SECONDS_PER_DAY * SECONDS_PER_DAY + u % SECONDS_PER_DAY;
  }
}
