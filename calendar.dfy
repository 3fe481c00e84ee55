/** Python's naive calendar dates, as proleptic Gregorian day ordinals
    (date.toordinal(): 0001-01-01 is day 1, 9999-12-31 is the last day),
    together with the strftime/strptime forms "%Y-%m-%d" and "%H:%M". */
module Calendar {
  import opened Text
  import opened Wrappers

  const MaxYear := 9999
  const MaxOrdinal := 3652059

  /** A date that datetime.date can represent; leaving this range is an
      OverflowError in Python. */
  type Date = d: int | 1 <= d <= MaxOrdinal witness 1

  predicate IsLeapYear(y: int) {
    y % 4 == 0 && (y % 100 != 0 || y % 400 == 0)
  }

  function DaysInYear(y: int): int {
    if IsLeapYear(y) then 366 else 365
  }

  function DaysInMonth(y: int, m: int): int
    requires 1 <= m <= 12
  {
    if m == 2 then (if IsLeapYear(y) then 29 else 28)
    else if m == 4 || m == 6 || m == 9 || m == 11 then 30
    else 31
  }

  /** Days of year y that precede the first day of month m (m == 13: the whole year). */
  function DaysBeforeMonth(y: int, m: int): int
    requires 1 <= m <= 13
  {
    [0, 31, 59, 90, 120, 151, 181, 212, 243, 273, 304, 334, 365][m - 1]
      + (if m > 2 && IsLeapYear(y) then 1 else 0)
  }

  lemma DaysBeforeMonthStep(y: int, m: int)
    requires 1 <= m <= 12
    ensures DaysBeforeMonth(y, m + 1) == DaysBeforeMonth(y, m) + DaysInMonth(y, m)
    ensures DaysBeforeMonth(y, 13) == DaysInYear(y)
  {
  }

  /** Days before January 1st of year y, with Python's formula. */
  function DaysBeforeYear(y: int): int
    requires y >= 1
  {
    var n := y - 1;
    n * 365 + n / 4 - n / 100 + n / 400
  }

  lemma DaysBeforeYearStep(y: int)
    requires y >= 1
    ensures DaysBeforeYear(y + 1) == DaysBeforeYear(y) + DaysInYear(y)
  {
    var n := y - 1;
    QuotientStep4(n);
    QuotientStep100(n);
    QuotientStep400(n);
    CenturiesAreLeapCandidates(y);
    assert DaysBeforeYear(y + 1) == (n + 1) * 365 + (n + 1) / 4 - (n + 1) / 100 + (n + 1) / 400;
  }

  /** Every multiple of 400 is a multiple of 100, and every multiple of 100
      one of 4. */
  lemma CenturiesAreLeapCandidates(y: int)
    ensures y % 400 == 0 ==> y % 100 == 0
    ensures y % 100 == 0 ==> y % 4 == 0
  {
    if y % 400 == 0 {
      FourHundredsAreHundreds(y);
    }
    if y % 100 == 0 {
      HundredsAreFours(y);
    }
  }

  lemma FourHundredsAreHundreds(y: int)
    requires y % 400 == 0
    ensures y % 100 == 0
  {
    var r := 4 * (y / 400);
    assert y == 100 * r;
    assert y / 100 == r;
  }

  lemma HundredsAreFours(y: int)
    requires y % 100 == 0
    ensures y % 4 == 0
  {
    var r := 25 * (y / 100);
    assert y == 4 * r;
    assert y / 4 == r;
  }

  lemma QuotientStep4(n: int)
    requires n >= 0
    ensures (n + 1) / 4 == n / 4 + (if (n + 1) % 4 == 0 then 1 else 0)
  {
  }

  lemma QuotientStep100(n: int)
    requires n >= 0
    ensures (n + 1) / 100 == n / 100 + (if (n + 1) % 100 == 0 then 1 else 0)
  {
  }

  lemma QuotientStep400(n: int)
    requires n >= 0
    ensures (n + 1) / 400 == n / 400 + (if (n + 1) % 400 == 0 then 1 else 0)
  {
  }

  lemma {:induction false} DaysBeforeYearMonotone(a: int, b: int)
    requires 1 <= a <= b
    ensures DaysBeforeYear(a) + 365 * (b - a) <= DaysBeforeYear(b)
    decreases b - a
  {
    if a < b {
      DaysBeforeYearMonotone(a, b - 1);
      DaysBeforeYearStep(b - 1);
    }
  }

  lemma LastYearEndsAtMaxOrdinal()
    ensures DaysBeforeYear(MaxYear + 1) == MaxOrdinal
  {
  }

  /** A year-month-day triple, as datetime.date(year, month, day) takes it. */
  datatype Civil = Civil(year: int, month: int, day: int)

  predicate ValidCivil(c: Civil) {
    && 1 <= c.year <= MaxYear
    && 1 <= c.month <= 12
    && 1 <= c.day <= DaysInMonth(c.year, c.month)
  }

  /** date.toordinal(). */
  function ToOrdinal(c: Civil): (d: Date)
    requires ValidCivil(c)
    ensures DaysBeforeYear(c.year) < d <= DaysBeforeYear(c.year + 1)
  {
    DaysBeforeMonthStep(c.year, c.month);
    DaysBeforeYearStep(c.year);
    DaysBeforeYearMonotone(c.year + 1, MaxYear + 1);
    LastYearEndsAtMaxOrdinal();
    DaysBeforeYear(c.year) + DaysBeforeMonth(c.year, c.month) + c.day
  }

  function FindYear(n: int, y: int): (r: int)
    requires 1 <= y && DaysBeforeYear(y) < n
    ensures y <= r && DaysBeforeYear(r) < n <= DaysBeforeYear(r + 1)
    decreases n - DaysBeforeYear(y)
  {
    DaysBeforeYearStep(y);
    if n <= DaysBeforeYear(y + 1) then y else FindYear(n, y + 1)
  }

  function FindMonth(y: int, dayOfYear: int, m: int): (r: int)
    requires 1 <= m <= 12 && DaysBeforeMonth(y, m) < dayOfYear <= DaysInYear(y)
    ensures m <= r <= 12
    ensures DaysBeforeMonth(y, r) < dayOfYear <= DaysBeforeMonth(y, r + 1)
    decreases 12 - m
  {
    DaysBeforeMonthStep(y, m);
    if dayOfYear <= DaysBeforeMonth(y, m + 1) then m else FindMonth(y, dayOfYear, m + 1)
  }

  /** date.fromordinal(). */
  function FromOrdinal(d: Date): (c: Civil)
    ensures ValidCivil(c)
  {
    var y := FindYear(d, 1);
    DaysBeforeYearStep(y);
    LastYearEndsAtMaxOrdinal();
    assert y <= MaxYear by {
      if y > MaxYear {
        DaysBeforeYearMonotone(MaxYear + 1, y);
      }
    }
    var dayOfYear := d - DaysBeforeYear(y);
    var m := FindMonth(y, dayOfYear, 1);
    DaysBeforeMonthStep(y, m);
    Civil(y, m, dayOfYear - DaysBeforeMonth(y, m))
  }

  /** date.fromordinal() undoes date.toordinal(). */
  lemma ToFromOrdinal(d: Date)
    ensures ToOrdinal(FromOrdinal(d)) == d
  {
    var y := FindYear(d, 1);
    DaysBeforeYearStep(y);
    LastYearEndsAtMaxOrdinal();
    if y > MaxYear {
      DaysBeforeYearMonotone(MaxYear + 1, y);
    }
    var dayOfYear := d - DaysBeforeYear(y);
    var m := FindMonth(y, dayOfYear, 1);
    DaysBeforeMonthStep(y, m);
  }

  /** Dates in an earlier year have smaller ordinals. */
  lemma EarlierYearEarlierDate(a: Civil, b: Civil)
    requires ValidCivil(a) && ValidCivil(b) && a.year < b.year
    ensures ToOrdinal(a) < ToOrdinal(b)
  {
    DaysBeforeYearMonotone(a.year + 1, b.year);
  }

  lemma ToOrdinalInjective(a: Civil, b: Civil)
    requires ValidCivil(a) && ValidCivil(b) && ToOrdinal(a) == ToOrdinal(b)
    ensures a == b
  {
    if a.year < b.year {
      EarlierYearEarlierDate(a, b);
    } else if b.year < a.year {
      EarlierYearEarlierDate(b, a);
    } else {
      var y := a.year;
      DaysBeforeMonthStep(y, a.month);
      DaysBeforeMonthStep(y, b.month);
      if a.month < b.month {
        MonthStartsIncrease(y, a.month + 1, b.month);
      } else if b.month < a.month {
        MonthStartsIncrease(y, b.month + 1, a.month);
      }
    }
  }

  lemma MonthStartsIncrease(y: int, m: int, n: int)
    requires 1 <= m <= n <= 13
    ensures DaysBeforeMonth(y, m) <= DaysBeforeMonth(y, n)
  {
  }

  lemma FromToOrdinal(c: Civil)
    requires ValidCivil(c)
    ensures FromOrdinal(ToOrdinal(c)) == c
  {
    ToFromOrdinal(ToOrdinal(c));
    ToOrdinalInjective(FromOrdinal(ToOrdinal(c)), c);
  }

  /** d + timedelta(days=n): OverflowError when the sum leaves the range
      of dates. */
  function AddDays(d: Date, n: int): (r: Result<Date>)
    ensures r.Ok? <==> 1 <= d + n <= MaxOrdinal
    ensures r.Ok? ==> r.value == d + n
    ensures r.Err? ==> r.error == OverflowError
  {
    if 1 <= d + n <= MaxOrdinal then Ok(d + n) else Err(OverflowError)
  }

  /** date.year. */
  function YearOf(d: Date): int {
    FromOrdinal(d).year
  }

  /** Two decimal digits, zero-padded. */
  function Pad2(k: nat): (r: string)
    requires k < 100
    ensures |r| == 2 && IsDigit(r[0]) && IsDigit(r[1])
    ensures DigitValue(r[0]) * 10 + DigitValue(r[1]) == k
  {
    [DigitChar(k / 10), DigitChar(k % 10)]
  }

  /** Four decimal digits, zero-padded. */
  function Pad4(k: nat): (r: string)
    requires k < 10000
    ensures |r| == 4 && IsDigit(r[0]) && IsDigit(r[1]) && IsDigit(r[2]) && IsDigit(r[3])
    ensures DigitValue(r[0]) * 1000 + DigitValue(r[1]) * 100 + DigitValue(r[2]) * 10 + DigitValue(r[3]) == k
  {
    Pad2(k / 100) + Pad2(k % 100)
  }

  /** str(year) for a four-digit year is its four-digit spelling. */
  lemma DecimalOfFourDigits(k: nat)
    requires 1000 <= k < 10000
    ensures Decimal(k) == Pad4(k)
  {
    var h := k / 10;
    DecimalShape(h);
    DigitsOfFour(k);
    assert Decimal(k) == Decimal(h) + [DigitChar(k % 10)];
    assert Pad2(k / 100) == [DigitChar(k / 1000), DigitChar(k / 100 % 10)];
    assert Pad2(k % 100) == [DigitChar(k % 100 / 10), DigitChar(k % 10)];
  }

  lemma DigitsOfFour(k: nat)
    requires 1000 <= k < 10000
    ensures k / 10 / 100 == k / 1000 == k / 100 / 10
    ensures k / 10 / 10 % 10 == k / 100 % 10
    ensures k / 10 % 10 == k % 100 / 10
  {
  }

  lemma DecimalShape(k: nat)
    requires 100 <= k < 1000
    ensures Decimal(k) == [DigitChar(k / 100), DigitChar(k / 10 % 10), DigitChar(k % 10)]
  {
    assert Decimal(k / 10) == [DigitChar(k / 100), DigitChar(k / 10 % 10)];
  }

  /** strftime("%Y-%m-%d") of a date; %Y is zero-padded to four digits. */
  function IsoDate(d: Date): (r: string)
    ensures |r| == 10
  {
    var c := FromOrdinal(d);
    Pad4(c.year) + "-" + Pad2(c.month) + "-" + Pad2(c.day)
  }

  /** strftime("%H:%M"). */
  function ClockTime(hour: nat, minute: nat): (r: string)
    requires hour < 24 && minute < 60
    ensures |r| == 5 && r[2] == ':'
    ensures IsDigit(r[0]) && IsDigit(r[1]) && DigitValue(r[0]) * 10 + DigitValue(r[1]) == hour
    ensures IsDigit(r[3]) && IsDigit(r[4]) && DigitValue(r[3]) * 10 + DigitValue(r[4]) == minute
  {
    Pad2(hour) + ":" + Pad2(minute)
  }

  /** The string begins with four digits, a dash, two digits, a dash, two digits. */
  predicate StartsIsoShape(s: string) {
    && |s| >= 10
    && IsDigit(s[0]) && IsDigit(s[1]) && IsDigit(s[2]) && IsDigit(s[3])
    && s[4] == '-' && IsDigit(s[5]) && IsDigit(s[6])
    && s[7] == '-' && IsDigit(s[8]) && IsDigit(s[9])
  }

  /** The year, month and day fields those digits spell. */
  function IsoFields(s: string): Civil
    requires StartsIsoShape(s)
  {
    Civil(
      DigitValue(s[0]) * 1000 + DigitValue(s[1]) * 100 + DigitValue(s[2]) * 10 + DigitValue(s[3]),
      DigitValue(s[5]) * 10 + DigitValue(s[6]),
      DigitValue(s[8]) * 10 + DigitValue(s[9]))
  }

  /** datetime.strptime(s, "%Y-%m-%d").date() for a string that begins with
      the ISO shape: anything after the ten characters is "unconverted data",
      and an impossible year, month or day is a ValueError too. */
  function StrptimeIso(s: string): (r: Result<Date>)
    requires StartsIsoShape(s)
    ensures r.Ok? <==> |s| == 10 && ValidCivil(IsoFields(s))
    ensures r.Err? ==> r.error == ValueError
  {
    if |s| == 10 && ValidCivil(IsoFields(s)) then Ok(ToOrdinal(IsoFields(s)))
    else Err(ValueError)
  }

  /** The name strftime writes is read back by strptime as the same date. */
  lemma IsoDateRoundTrip(d: Date)
    ensures StartsIsoShape(IsoDate(d))
    ensures StrptimeIso(IsoDate(d)) == Ok(d)
  {
    var c := FromOrdinal(d);
    ToFromOrdinal(d);
    assert IsoFields(IsoDate(d)) == c;
  }
}
