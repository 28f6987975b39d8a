/** Spreadsheet serial dates: a serial number counts days from 30 December
    1899 in the proleptic Gregorian calendar, and the sync service writes it
    out as DD.MM.YYYY. */
module Calendar {
  import opened Text

  datatype Date = Date(year: int, month: int, day: int)

  datatype Option<T> = None | Some(value: T)

  predicate IsLeapYear(y: int) {
    y % 4 == 0 && (y % 100 != 0 || y % 400 == 0)
  }

  function DaysInYear(y: int): int {
    if IsLeapYear(y) then 366 else 365
  }

  function DaysInMonth(y: int, m: int): int
    requires 1 <= m <= 12
  {
    if m == 2 then (if IsLeapYear(y) then 29 else 28)
    else if m == 4 || m == 6 || m == 9 || m == 11 then 30
    else 31
  }

  /** Days of year y that lie before the first of month m. */
  function DaysBeforeMonth(y: int, m: int): int
    requires 1 <= m <= 12
  {
    [0, 31, 59, 90, 120, 151, 181, 212, 243, 273, 304, 334][m - 1]
      + (if m > 2 && IsLeapYear(y) then 1 else 0)
  }

  lemma DaysBeforeNextMonth(y: int, m: int)
    requires 1 <= m < 12
    ensures DaysBeforeMonth(y, m + 1) == DaysBeforeMonth(y, m) + DaysInMonth(y, m)
  {
  }

  predicate ValidDate(d: Date) {
    1 <= d.month <= 12 && 1 <= d.day <= DaysInMonth(d.year, d.month)
  }

  /** The calendar day after d: the reference that the serial conversion is
      checked against. */
  function NextDay(d: Date): Date
    requires ValidDate(d)
  {
    if d.day < DaysInMonth(d.year, d.month) then Date(d.year, d.month, d.day + 1)
    else if d.month < 12 then Date(d.year, d.month + 1, 1)
    else Date(d.year + 1, 1, 1)
  }

  /** The date k days after the first of month m of year y, where k does not
      reach past the end of that year. */
  function MonthDate(y: int, m: int, k: nat): (d: Date)
    requires 1 <= m <= 12 && k < DaysInYear(y) - DaysBeforeMonth(y, m)
    ensures ValidDate(d) && d.year == y && m <= d.month
    decreases 12 - m
  {
    if k < DaysInMonth(y, m) then Date(y, m, k + 1)
    else
      DaysBeforeNextMonth(y, m);
      MonthDate(y, m + 1, k - DaysInMonth(y, m))
  }

  /** The date k days after 1 January of year y. */
  function CivilDate(y: int, k: nat): (d: Date)
    ensures ValidDate(d) && y <= d.year <= y + k / 365
    decreases k
  {
    if k < DaysInYear(y) then MonthDate(y, 1, k)
    else CivilDate(y + 1, k - DaysInYear(y))
  }

  /** 30 December is day 363 (counting from 0) of the common year 1899. */
  const EpochDayOfYear: nat := 363

  /** The date of spreadsheet serial number n: 1899-12-30 plus n days. */
  function SerialDate(n: nat): (d: Date)
    ensures ValidDate(d)
  {
    CivilDate(1899, EpochDayOfYear + n)
  }

  lemma SerialEpoch()
    ensures SerialDate(0) == Date(1899, 12, 30)
  {
  }

  lemma {:induction false} MonthDateNext(y: int, m: int, k: nat)
    requires 1 <= m <= 12 && k + 1 < DaysInYear(y) - DaysBeforeMonth(y, m)
    ensures MonthDate(y, m, k + 1) == NextDay(MonthDate(y, m, k))
    decreases 12 - m
  {
    if k + 1 < DaysInMonth(y, m) {
    } else if k + 1 == DaysInMonth(y, m) {
      DaysBeforeNextMonth(y, m);
      assert MonthDate(y, m + 1, 0) == Date(y, m + 1, 1);
    } else {
      DaysBeforeNextMonth(y, m);
      MonthDateNext(y, m + 1, k - DaysInMonth(y, m));
    }
  }

  lemma {:induction false} MonthDateLast(y: int, m: int)
    requires 1 <= m <= 12
    ensures 0 <= DaysInYear(y) - DaysBeforeMonth(y, m) - 1
    ensures MonthDate(y, m, DaysInYear(y) - DaysBeforeMonth(y, m) - 1) == Date(y, 12, 31)
    decreases 12 - m
  {
    if m < 12 {
      DaysBeforeNextMonth(y, m);
      MonthDateLast(y, m + 1);
    }
  }

  lemma {:induction false} CivilDateNext(y: int, k: nat)
    ensures CivilDate(y, k + 1) == NextDay(CivilDate(y, k))
    decreases k
  {
    if k + 1 < DaysInYear(y) {
      MonthDateNext(y, 1, k);
    } else if k + 1 == DaysInYear(y) {
      MonthDateLast(y, 1);
      assert CivilDate(y + 1, 0) == Date(y + 1, 1, 1);
    } else {
      CivilDateNext(y + 1, k - DaysInYear(y));
    }
  }

  /** Serial n + 1 is the calendar day after serial n. */
  lemma SerialNext(n: nat)
    ensures SerialDate(n + 1) == NextDay(SerialDate(n))
  {
    CivilDateNext(1899, EpochDayOfYear + n);
  }

  /** DD.MM.YYYY, as strftime("%d.%m.%Y") writes a date of years 0..9999. */
  function FormatDate(d: Date): (s: string)
    requires ValidDate(d) && 0 <= d.year <= 9999
    ensures |s| == 10 && s[2] == '.' && s[5] == '.'
    ensures AllDigits(s[0..2]) && AllDigits(s[3..5]) && AllDigits(s[6..10])
  {
    var s := Padded(d.day, 2) + "." + Padded(d.month, 2) + "." + Padded(d.year, 4);
    assert s[0..2] == Padded(d.day, 2);
    assert s[3..5] == Padded(d.month, 2);
    assert s[6..10] == Padded(d.year, 4);
    s
  }

  /** Reads a DD.MM.YYYY string back; the inverse of FormatDate. */
  function ParseDate(s: string): Option<Date> {
    if |s| == 10 && s[2] == '.' && s[5] == '.'
       && AllDigits(s[0..2]) && AllDigits(s[3..5]) && AllDigits(s[6..10])
    then Some(Date(Decimal(s[6..10]), Decimal(s[3..5]), Decimal(s[0..2])))
    else None
  }

  lemma FormatThenParse(d: Date)
    requires ValidDate(d) && 0 <= d.year <= 9999
    ensures ParseDate(FormatDate(d)) == Some(d)
  {
    var s := FormatDate(d);
    assert s[0..2] == Padded(d.day, 2);
    assert s[3..5] == Padded(d.month, 2);
    assert s[6..10] == Padded(d.year, 4);
  }

  /** The largest year a date may have; adding days beyond it overflows. */
  const MaxYear := 9999

  /** convert_serial_date_to_string on the integer part of a serial number:
      None stands for the overflow the conversion reports when the date
      falls after year 9999. */
  function ConvertSerialDate(serial: nat): (r: Option<string>)
    ensures r.Some? <==> SerialDate(serial).year <= MaxYear
    ensures r.Some? ==> |r.value| == 10 && ParseDate(r.value) == Some(SerialDate(serial))
  {
    var d := SerialDate(serial);
    if d.year <= MaxYear then
      FormatThenParse(d);
      Some(FormatDate(d))
    else None
  }

  /** Serials below 50000 fall no later than 2036, so they always convert. */
  lemma SerialYearBound(serial: nat)
    requires serial < 50000
    ensures 1899 <= SerialDate(serial).year <= 2036
    ensures ConvertSerialDate(serial).Some?
  {
  }

  /** Between 1901 and 2099 every fourth year, and only it, is a leap year. */
  lemma LeapCycle(y: int)
    requires y % 4 == 1 && 1901 <= y <= 2096
    ensures !IsLeapYear(y) && !IsLeapYear(y + 1) && !IsLeapYear(y + 2) && IsLeapYear(y + 3)
  {
    var c := (y + 3) / 100;
    assert 19 <= c <= 20;
    assert (y + 3) % 100 == 0 ==> y + 3 == 2000;
  }

  lemma CivilDateOneCycle(y: int, k: nat)
    requires y % 4 == 1 && 1901 <= y <= 2096 && 1461 <= k
    ensures CivilDate(y, k) == CivilDate(y + 4, k - 1461)
  {
    LeapCycle(y);
    assert CivilDate(y, k) == CivilDate(y + 1, k - 365);
    assert CivilDate(y + 1, k - 365) == CivilDate(y + 2, k - 730);
    assert CivilDate(y + 2, k - 730) == CivilDate(y + 3, k - 1095);
    assert CivilDate(y + 3, k - 1095) == CivilDate(y + 4, k - 1461);
  }

  /** Four years of this period take 1461 days. */
  lemma {:induction false} CivilDateFourYears(y: int, k: nat, n: nat)
    requires y % 4 == 1 && 1901 <= y && y + 4 * n <= 2100 && 1461 * n <= k
    ensures CivilDate(y, k) == CivilDate(y + 4 * n, k - 1461 * n)
    decreases n
  {
    if n > 0 {
      CivilDateOneCycle(y, k);
      CivilDateFourYears(y + 4, k - 1461, n - 1);
    }
  }

  lemma CivilDateNextYear(y: int, k: nat)
    requires DaysInYear(y) <= k
    ensures CivilDate(y, k) == CivilDate(y + 1, k - DaysInYear(y))
  {
  }

  /** Serial 45000 is 15 March 2023 (stated for a variable so that the
      verifier follows the year steps given here instead of unrolling the
      whole computation). */
  lemma SerialExample(n: nat)
    requires n == 45000
    ensures SerialDate(n) == Date(2023, 3, 15)
  {
    CivilDateNextYear(1899, EpochDayOfYear + n);
    CivilDateNextYear(1900, EpochDayOfYear + n - 365);
    CivilDateFourYears(1901, EpochDayOfYear + n - 730, 30);
    CivilDateNextYear(2021, 803);
    CivilDateNextYear(2022, 438);
  }

  lemma FormatExample()
    ensures FormatDate(Date(2023, 3, 15)) == "15.03.2023"
  {
  }

  lemma ConvertExample()
    ensures ConvertSerialDate(45000) == Some("15.03.2023")
  {
    SerialExample(45000);
    FormatExample();
  }
}
