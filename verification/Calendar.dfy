/** GetJdn and GetUnixEpoch against the Gregorian calendar. */
module Calendar {
  import opened Bytes

  /** Division as C does it on int, rounding toward zero. */
  function CDiv(a: int, b: int): int
    requires b > 0
  {
    if a >= 0 then a / b else -(-a / b)
  }

  /** The value of the expression in GetJdn, which C computes in int. */
  function JdnValue(days: int, months: int, years: int): int {
    CDiv(1461 * (years + 4800 + CDiv(months - 14, 12)), 4)
    + CDiv(367 * (months - 2 - 12 * CDiv(months - 14, 12)), 12)
    - CDiv(3 * CDiv(years + 4900 + CDiv(months - 14, 12), 100), 4)
    + days - 32075
  }

  function GetJdn(days: Byte, months: Byte, years: U16): U64 {
    JdnValue(days, months, years) % TWO_64
  }

  /** GetUnixEpoch; the year arrives as a byte. */
  function GetUnixEpoch(seconds: Byte, minutes: Byte, hours: Byte, days: Byte, months: Byte, years: Byte): U64 {
    ((GetJdn(days, months, years) - GetJdn(1, 1, 1970)) % TWO_64 * 86400 + hours * 3600 + minutes * 60 + seconds) % TWO_64
  }

  // ---------- the calendar ----------

  predicate Leap(y: int) {
    y % 4 == 0 && (y % 100 != 0 || y % 400 == 0)
  }

  function YearLength(y: int): int { if Leap(y) then 366 else 365 }

  function MonthLength(y: int, m: int): int
    requires 1 <= m <= 12
  {
    if m == 2 then (if Leap(y) then 29 else 28)
    else if m == 4 || m == 6 || m == 9 || m == 11 then 30
    else 31
  }

  datatype Date = Date(year: nat, month: nat, day: nat)

  predicate Valid(d: Date) {
    1 <= d.month <= 12 && 1 <= d.day <= MonthLength(d.year, d.month)
  }

  function NextDay(d: Date): (d': Date)
    requires Valid(d)
    ensures Valid(d')
  {
    if d.day < MonthLength(d.year, d.month) then d.(day := d.day + 1)
    else if d.month < 12 then Date(d.year, d.month + 1, 1)
    else Date(d.year + 1, 1, 1)
  }

  /** Days in the years before year y, counted year by year. */
  function DaysBeforeYear(y: nat): nat {
    if y == 0 then 0 else DaysBeforeYear(y - 1) + YearLength(y - 1)
  }

  /** Days in the months of year y before month m. */
  function DaysBeforeMonth(y: int, m: int): int
    requires 1 <= m <= 12
  {
    if m == 1 then 0 else DaysBeforeMonth(y, m - 1) + MonthLength(y, m - 1)
  }

  /** How many days the date is after 1 January of year 0. */
  function DayNumber(d: Date): int
    requires Valid(d)
  {
    DaysBeforeYear(d.year) + DaysBeforeMonth(d.year, d.month) + d.day - 1
  }

  /** Days since the Unix epoch. */
  function EpochDay(d: Date): int
    requires Valid(d)
  {
    DayNumber(d) - DayNumber(Date(1970, 1, 1))
  }

  // ---------- GetJdn counts days ----------

  /** The year part of the formula for a year counted from March. */
  function JdnYear(a: int): int { 1461 * (a + 4800) / 4 - 3 * ((a + 4900) / 100) / 4 }

  /** The month part, for months counted from March. */
  function JdnMonth(months: int): int
    requires 1 <= months <= 12
  {
    if months <= 2 then 367 * (months + 10) / 12 else 367 * (months - 2) / 12
  }

  lemma JdnSplits(days: int, months: int, years: nat)
    requires 1 <= months <= 12
    ensures JdnValue(days, months, years)
         == JdnYear(if months <= 2 then years - 1 else years) + JdnMonth(months) + days - 32075
  {
    assert CDiv(months - 14, 12) == if months <= 2 then -1 else 0;
  }

  /** From one March to the next the formula moves by the length of the year that ends in between. */
  lemma JdnYearStep(y: nat)
    ensures JdnYear(y) - JdnYear(y - 1) == YearLength(y)
  {
    FourYearStep(y);
    CenturyStep(y);
    LeapByCases(y);
  }

  lemma LeapByCases(y: nat)
    ensures YearLength(y) == (if y % 4 == 0 then 366 else 365) - if y % 100 == 0 && y % 400 != 0 then 1 else 0
  {
    assert y % 100 == 0 ==> y % 4 == 0;
  }

  lemma FourYearStep(y: nat)
    ensures 1461 * (y + 4800) / 4 - 1461 * (y + 4799) / 4 == if y % 4 == 0 then 366 else 365
  {
    var q, r := y / 4, y % 4;
    assert 1461 * (y + 4800) / 4 == 1461 * (q + 1200) + 1461 * r / 4;
    if r == 0 {
      assert 1461 * (y + 4799) / 4 == 1461 * (q + 1199) + 1461 * 3 / 4;
    } else {
      assert 1461 * (y + 4799) / 4 == 1461 * (q + 1200) + 1461 * (r - 1) / 4;
    }
  }

  lemma CenturyStep(y: nat)
    ensures 3 * ((y + 4900) / 100) / 4 - 3 * ((y + 4899) / 100) / 4 == if y % 100 == 0 && y % 400 != 0 then 1 else 0
  {
    var c := y / 100;
    Centuries(y);
    CenturyQuarters(c);
  }

  lemma Centuries(y: nat)
    ensures (y + 4900) / 100 == y / 100 + 49
    ensures (y + 4899) / 100 == if y % 100 == 0 then y / 100 + 48 else y / 100 + 49
    ensures y % 100 == 0 ==> (y % 400 == 0 <==> y / 100 % 4 == 0)
  {
    var c, d := y / 100, y % 100;
    assert y + 4900 == 100 * (c + 49) + d;
    if d == 0 {
      assert y + 4899 == 100 * (c + 48) + 99;
      var q, r := c / 4, c % 4;
      assert y == 400 * q + 100 * r;
    } else {
      assert y + 4899 == 100 * (c + 49) + (d - 1);
    }
  }

  lemma CenturyQuarters(c: nat)
    ensures 3 * (c + 49) / 4 - 3 * (c + 48) / 4 == if c % 4 == 0 then 0 else 1
  {
    var q, r := c / 4, c % 4;
    assert 3 * (c + 49) / 4 == 3 * (q + 12) + 3 * (r + 1) / 4;
    assert 3 * (c + 48) / 4 == 3 * (q + 12) + 3 * r / 4;
  }

  lemma {:induction false} JdnYearCounts(y: nat)
    ensures JdnYear(y) == JdnYear(-1) + DaysBeforeYear(y) + YearLength(y)
  {
    JdnYearStep(y);
    if y == 0 {
    } else {
      JdnYearCounts(y - 1);
    }
  }

  /** Day zero of the calendar in the formula's numbering. */
  const JDN_OF_YEAR_0: int := JdnYear(-1) + 336 + 1 - 32075

  lemma MonthTable(y: nat, m: int)
    requires 1 <= m <= 12
    ensures DaysBeforeMonth(y, m) == if m <= 2 then JdnMonth(m) - 336 else JdnMonth(m) + YearLength(y) - 336
    decreases m
  {
    if m == 1 {
    } else {
      MonthTable(y, m - 1);
    }
  }

  /** The formula is the count of calendar days, for every date the loader can be given. */
  lemma JdnCountsDays(d: Date)
    requires Valid(d)
    ensures JdnValue(d.day, d.month, d.year) == DayNumber(d) + JDN_OF_YEAR_0
  {
    hide JdnYear, JdnMonth;
    JdnSplits(d.day, d.month, d.year);
    JdnYearCounts(d.year);
    JdnYearStep(d.year);
    MonthTable(d.year, d.month);
  }

  lemma YearZero()
    ensures JDN_OF_YEAR_0 == 1721060
  {
  }

  /** GetJdn of a date that fits its parameters is that count; nothing wraps. */
  lemma GetJdnCountsDays(d: Date)
    requires Valid(d) && d.year < 0x1_0000
    ensures GetJdn(d.day, d.month, d.year) == DayNumber(d) + JDN_OF_YEAR_0
  {
    hide JdnValue, JdnYear;
    JdnCountsDays(d);
    YearZero();
    DaysBeforeYearRange(0, d.year);
    MonthsAddUp(d.year, d.month);
  }

  lemma {:induction false} DaysBeforeYearRange(y: nat, y': nat)
    requires y <= y'
    ensures 365 * (y' - y) <= DaysBeforeYear(y') - DaysBeforeYear(y) <= 366 * (y' - y)
    decreases y' - y
  {
    if y == y' {
    } else {
      DaysBeforeYearRange(y, y' - 1);
    }
  }

  lemma {:induction false} MonthsAddUp(y: int, m: int)
    requires 1 <= m <= 12
    ensures 0 <= DaysBeforeMonth(y, m) && DaysBeforeMonth(y, m) + MonthLength(y, m) <= YearLength(y)
    ensures m == 12 ==> DaysBeforeMonth(y, m) + MonthLength(y, m) == YearLength(y)
  {
    assert DaysBeforeMonth(y, 2) == 31;
    assert DaysBeforeMonth(y, 3) == YearLength(y) - 306;
    assert DaysBeforeMonth(y, 5) == DaysBeforeMonth(y, 3) + 61;
    assert DaysBeforeMonth(y, 7) == DaysBeforeMonth(y, 5) + 61;
    assert DaysBeforeMonth(y, 9) == DaysBeforeMonth(y, 7) + 62;
    assert DaysBeforeMonth(y, 11) == DaysBeforeMonth(y, 9) + 61;
  }

  /** The next calendar day is the next Julian day, over every month end, leap day and century. */
  lemma NextDayIsNextJdn(d: Date)
    requires Valid(d) && NextDay(d).year < 0x1_0000
    ensures DayNumber(NextDay(d)) == DayNumber(d) + 1
    ensures GetJdn(NextDay(d).day, NextDay(d).month, NextDay(d).year) == GetJdn(d.day, d.month, d.year) + 1
  {
    hide GetJdn;
    MonthsAddUp(d.year, d.month);
    GetJdnCountsDays(d);
    GetJdnCountsDays(NextDay(d));
  }

  predicate Earlier(d: Date, e: Date) {
    d.year < e.year || (d.year == e.year && (d.month < e.month || (d.month == e.month && d.day < e.day)))
  }

  lemma {:induction false} MonthsInOrder(y: int, m: int, m': int)
    requires 1 <= m < m' <= 12
    ensures DaysBeforeMonth(y, m) + MonthLength(y, m) <= DaysBeforeMonth(y, m')
    decreases m' - m
  {
    if m + 1 == m' {
    } else {
      MonthsInOrder(y, m, m' - 1);
    }
  }

  lemma EarlierIsLess(d: Date, e: Date)
    requires Valid(d) && Valid(e) && Earlier(d, e)
    ensures DayNumber(d) < DayNumber(e)
  {
    MonthsAddUp(d.year, d.month);
    MonthsAddUp(e.year, e.month);
    if d.year < e.year {
      DaysBeforeYearRange(d.year + 1, e.year);
    } else if d.month < e.month {
      MonthsInOrder(d.year, d.month, e.month);
    }
  }

  /** Earlier dates have smaller numbers, so no two dates share one. */
  lemma JdnOrdersDates(d: Date, e: Date)
    requires Valid(d) && Valid(e) && d.year < 0x1_0000 && e.year < 0x1_0000
    ensures Earlier(d, e) <==> GetJdn(d.day, d.month, d.year) < GetJdn(e.day, e.month, e.year)
    ensures d == e <==> GetJdn(d.day, d.month, d.year) == GetJdn(e.day, e.month, e.year)
  {
    hide GetJdn, DayNumber;
    GetJdnCountsDays(d);
    GetJdnCountsDays(e);
    if Earlier(d, e) {
      EarlierIsLess(d, e);
    } else if Earlier(e, d) {
      EarlierIsLess(e, d);
    }
  }

  // ---------- Unix time ----------

  /** Seconds since the Unix epoch; negative before it. */
  function UnixSeconds(d: Date, hours: nat, minutes: nat, seconds: nat): int
    requires Valid(d)
  {
    86400 * EpochDay(d) + hours * 3600 + minutes * 60 + seconds
  }

  /** For the year it receives, GetUnixEpoch is Unix time in 64 bits. */
  lemma UnixEpochOfReceivedYear(d: Date, hours: Byte, minutes: Byte, seconds: Byte)
    requires Valid(d) && d.year < 0x100
    ensures GetUnixEpoch(seconds, minutes, hours, d.day, d.month, d.year) == UnixSeconds(d, hours, minutes, seconds) % TWO_64
  {
    hide GetJdn, DayNumber;
    GetJdnCountsDays(d);
    GetJdnCountsDays(Date(1970, 1, 1));
    WrappedSeconds(EpochDay(d), hours * 3600 + minutes * 60 + seconds);
  }

  lemma WrappedSeconds(days: int, rest: int)
    ensures (days % TWO_64 * 86400 + rest) % TWO_64 == (86400 * days + rest) % TWO_64
  {
    var q := days / TWO_64;
    assert days == TWO_64 * q + days % TWO_64;
    assert 86400 * days + rest == (days % TWO_64 * 86400 + rest) + TWO_64 * (86400 * q);
    WholeTurns(days % TWO_64 * 86400 + rest, 86400 * q);
  }

  /** The callers pass a 16-bit year, which arrives modulo 256. The result is Unix time exactly for years below 256,
      so for no year the firmware clock can show (1900 to 9999). */
  lemma UnixEpochExactly(d: Date, hours: Byte, minutes: Byte, seconds: Byte)
    requires Valid(d) && d.year < 0x1_0000
    ensures GetUnixEpoch(seconds, minutes, hours, d.day, d.month, d.year % 0x100) == UnixSeconds(d, hours, minutes, seconds) % TWO_64
       <==> d.year < 0x100
  {
    hide GetUnixEpoch, UnixSeconds;
    if d.year < 0x100 {
      UnixEpochOfReceivedYear(d, hours, minutes, seconds);
    } else {
      TruncatedYearIsWrong(d, d.year % 0x100, hours, minutes, seconds);
    }
  }

  lemma TruncatedYearIsWrong(d: Date, y: Byte, hours: Byte, minutes: Byte, seconds: Byte)
    requires Valid(d) && y < d.year < 0x1_0000
    ensures GetUnixEpoch(seconds, minutes, hours, d.day, d.month, y) != UnixSeconds(d, hours, minutes, seconds) % TWO_64
  {
    hide JdnValue, DayNumber;
    var short, long := JdnValue(d.day, d.month, y), JdnValue(d.day, d.month, d.year);
    JdnOfLaterYear(d.day, d.month, y, d.year);
    JdnCountsDays(d);
    GetJdnCountsDays(Date(1970, 1, 1));
    var rest := hours * 3600 + minutes * 60 + seconds;
    var base := GetJdn(1, 1, 1970);
    EpochArithmetic(short, base, rest);
    assert EpochDay(d) == long - base;
    DifferentWords(86400 * (short - base) + rest, 86400 * (long - base) + rest);
  }

  lemma DifferentWords(a: int, b: int)
    requires 0 < b - a < TWO_64
    ensures a % TWO_64 != b % TWO_64
  {
  }

  lemma EpochArithmetic(jdn: int, base: U64, rest: nat)
    ensures ((jdn % TWO_64 - base) % TWO_64 * 86400 + rest) % TWO_64 == (86400 * (jdn - base) + rest) % TWO_64
  {
    var q := jdn / TWO_64;
    assert jdn % TWO_64 - base == (jdn - base) + TWO_64 * (-q);
    WholeTurns(jdn - base, -q);
    WrappedSeconds(jdn - base, rest);
  }

  lemma JdnOfLaterYear(day: int, month: int, y: nat, y': nat)
    requires 1 <= month <= 12 && y < y' < 0x1_0000
    ensures 0 < JdnValue(day, month, y') - JdnValue(day, month, y) <= 366 * 0x1_0000
    ensures JdnValue(day, month, y') - JdnValue(day, month, y) >= 365
  {
    hide JdnYear, JdnMonth;
    JdnSplits(day, month, y);
    JdnSplits(day, month, y');
    JdnYearCounts(y); JdnYearCounts(y');
    JdnYearStep(y); JdnYearStep(y');
    DaysBeforeYearRange(y, y');
    DaysBeforeYearRange(y + 1, y' + 1);
  }
}
