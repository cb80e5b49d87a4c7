/**
 * The proleptic Gregorian calendar of Python's `datetime.date` and `calendar` modules:
 * leap years, month lengths, the day ordinal (`toordinal`), `weekday()`, subtraction of a
 * number of days (`date - timedelta(days=n)`) and the `%Y-%m-%d` text of a date.
 */
module Calendar {
  import opened Wrappers

  datatype Date = Date(year: int, month: int, day: int)

  /** `datetime.MINYEAR` and `datetime.MAXYEAR`. */
  const MinYear := 1
  const MaxYear := 9999

  /** The earliest representable date, 0001-01-01 (a Monday). */
  const Epoch := Date(MinYear, 1, 1)

  /** `calendar.isleap`: every fourth year, except the century years not divisible by 400. */
  predicate IsLeapYear(y: int): (b: bool)
    ensures b ==> y % 4 == 0
    ensures y % 4 == 0 && y % 100 != 0 ==> b
    ensures y % 100 == 0 ==> (b <==> y % 400 == 0)
  {
    y % 4 == 0 && (y % 100 != 0 || y % 400 == 0)
  }

  /** The second component of `calendar.monthrange(y, m)`. */
  function DaysInMonth(y: int, m: int): (d: int)
    requires 1 <= m <= 12
    ensures 28 <= d <= 31
    ensures d == 29 <==> m == 2 && IsLeapYear(y)
    ensures d == 28 <==> m == 2 && !IsLeapYear(y)
  {
    if m == 2 then (if IsLeapYear(y) then 29 else 28)
    else if m == 4 || m == 6 || m == 9 || m == 11 then 30
    else 31
  }

  /** A value `datetime.date(year, month, day)` accepts. */
  predicate ValidDate(d: Date) {
    MinYear <= d.year <= MaxYear && 1 <= d.month <= 12 && 1 <= d.day <= DaysInMonth(d.year, d.month)
  }

  /** The order of dates, which is also the order of their `YYYY-MM-DD` texts. */
  predicate LessEq(a: Date, b: Date) {
    a.year < b.year || (a.year == b.year && (a.month < b.month || (a.month == b.month && a.day <= b.day)))
  }

  lemma LessEqTransitive(a: Date, b: Date, c: Date)
    requires LessEq(a, b) && LessEq(b, c)
    ensures LessEq(a, c)
  {
  }

  predicate Before(a: Date, b: Date) {
    LessEq(a, b) && a != b
  }

  /** 365, or 366 in a leap year. */
  function DaysInYear(y: int): int {
    if IsLeapYear(y) then 366 else 365
  }

  /** Days in the years before `y`, counted from 0001-01-01 one year at a time. */
  function DaysBeforeYear(y: int): (n: int)
    requires y >= 1
    ensures n >= 365 * (y - 1)
  {
    if y == 1 then 0 else DaysBeforeYear(y - 1) + DaysInYear(y - 1)
  }

  /** Days in the months of year `y` before month `m`. */
  function DaysBeforeMonth(y: int, m: int): int
    requires 1 <= m <= 12
  {
    var common :=
      if m == 1 then 0 else if m == 2 then 31 else if m == 3 then 59 else if m == 4 then 90
      else if m == 5 then 120 else if m == 6 then 151 else if m == 7 then 181 else if m == 8 then 212
      else if m == 9 then 243 else if m == 10 then 273 else if m == 11 then 304 else 334;
    common + (if m > 2 && IsLeapYear(y) then 1 else 0)
  }

  /** `date.max.toordinal()`, the ordinal of 9999-12-31. */
  const MaxOrdinal := 3652059

  /** `date.toordinal()`: 0001-01-01 is day 1, and every ordinal lies in 1..`date.max.toordinal()`. */
  function Ordinal(d: Date): (o: int)
    requires ValidDate(d)
    ensures 1 <= o <= MaxOrdinal
  {
    DaysUpToMax(d);
    DaysBeforeYear(d.year) + DaysBeforeMonth(d.year, d.month) + d.day
  }

  /** No valid date is counted past 9999-12-31. */
  lemma DaysUpToMax(d: Date)
    requires ValidDate(d)
    ensures DaysBeforeYear(d.year) + DaysBeforeMonth(d.year, d.month) + d.day <= MaxOrdinal
  {
    DaysBeforeMaxYear();
    DaysBeforeYearMonotone(d.year + 1, MaxYear + 1);
    DaysInYearUpTo(d);
    YearStep(d.year);
  }

  /** The years 1..9999 hold `date.max.toordinal()` days. */
  lemma DaysBeforeMaxYear()
    ensures DaysBeforeYear(MaxYear + 1) == MaxOrdinal
  {
    DaysBeforeYearFormula(MaxYear + 1);
  }

  /** A valid date is counted within its own year. */
  lemma DaysInYearUpTo(d: Date)
    requires ValidDate(d)
    ensures DaysBeforeMonth(d.year, d.month) + d.day <= DaysBeforeMonth(d.year, 12) + DaysInMonth(d.year, 12)
  {
    if d.month < 12 {
      MonthsBefore(d.year, d.month, 12);
    }
  }

  /** `date.weekday()`: Monday is 0 and Sunday is 6. */
  function Weekday(d: Date): (w: int)
    requires ValidDate(d)
    ensures 0 <= w < 7
  {
    (Ordinal(d) + 6) % 7
  }

  lemma MonthStep(y: int, m: int)
    requires 1 <= m < 12
    ensures DaysBeforeMonth(y, m + 1) == DaysBeforeMonth(y, m) + DaysInMonth(y, m)
  {
  }

  /** The months before `m2` include all of month `m1`. */
  lemma MonthsBefore(y: int, m1: int, m2: int)
    requires 1 <= m1 < m2 <= 12
    ensures DaysBeforeMonth(y, m1) + DaysInMonth(y, m1) <= DaysBeforeMonth(y, m2)
  {
  }

  /** A year has 365 days, or 366 in a leap year. */
  lemma YearStep(y: int)
    requires y >= 1
    ensures DaysBeforeYear(y + 1) == DaysBeforeYear(y) + DaysBeforeMonth(y, 12) + DaysInMonth(y, 12)
  {
  }

  lemma {:induction false} DaysBeforeYearMonotone(y1: int, y2: int)
    requires 1 <= y1 <= y2
    ensures DaysBeforeYear(y1) <= DaysBeforeYear(y2)
    decreases y2 - y1
  {
    if y1 < y2 {
      YearStep(y1);
      DaysBeforeYearMonotone(y1 + 1, y2);
    }
  }

  /**
   * The days before year `y` in closed form, as `datetime`'s `_days_before_year` computes them:
   * 365 per year, plus one per leap year, counting 97 leap years in every 400.
   */
  lemma {:induction false} DaysBeforeYearFormula(y: int)
    requires y >= 1
    ensures DaysBeforeYear(y) == 365 * (y - 1) + (y - 1) / 4 - (y - 1) / 100 + (y - 1) / 400
  {
    if y > 1 {
      DaysBeforeYearFormula(y - 1);
      LeapYearsBefore(y - 1);
    }
  }

  /** Counting multiples of 4, 100 and 400 up to `k` adds one exactly when `k` is a leap year. */
  lemma LeapYearsBefore(k: int)
    requires k >= 1
    ensures (k / 4 - k / 100 + k / 400) - ((k - 1) / 4 - (k - 1) / 100 + (k - 1) / 400)
            == if IsLeapYear(k) then 1 else 0
  {
    MultipleStep4(k);
    MultipleStep100(k);
    MultipleStep400(k);
    DivisorsOfCenturies(k);
  }

  /** A multiple of 400 is a multiple of 100, and a multiple of 100 is a multiple of 4. */
  lemma DivisorsOfCenturies(k: int)
    ensures k % 400 == 0 ==> k % 100 == 0
    ensures k % 100 == 0 ==> k % 4 == 0
  {
  }

  /** Going from `k - 1` to `k` passes a multiple of 4 exactly when 4 divides `k`; likewise below. */
  lemma MultipleStep4(k: int)
    requires k >= 1
    ensures k / 4 - (k - 1) / 4 == if k % 4 == 0 then 1 else 0
  {
  }

  lemma MultipleStep100(k: int)
    requires k >= 1
    ensures k / 100 - (k - 1) / 100 == if k % 100 == 0 then 1 else 0
  {
  }

  lemma MultipleStep400(k: int)
    requires k >= 1
    ensures k / 400 - (k - 1) / 400 == if k % 400 == 0 then 1 else 0
  {
  }

  /** Every valid date has ordinal at least 1, and only 0001-01-01 has ordinal 1. */
  lemma OrdinalPositive(d: Date)
    requires ValidDate(d)
    ensures Ordinal(d) >= 1
    ensures Ordinal(d) == 1 <==> d == Epoch
  {
  }

  lemma EpochOrdinal()
    ensures Ordinal(Epoch) == 1
  {
  }

  /** Dates are ordered exactly as their ordinals are. */
  lemma {:induction false} OrdinalOrder(a: Date, b: Date)
    requires ValidDate(a) && ValidDate(b)
    ensures LessEq(a, b) <==> Ordinal(a) <= Ordinal(b)
    ensures a == b <==> Ordinal(a) == Ordinal(b)
  {
    if a != b {
      if LessEq(a, b) {
        OrdinalIncreasing(a, b);
      } else {
        OrdinalIncreasing(b, a);
      }
    }
  }

  lemma {:induction false} OrdinalIncreasing(a: Date, b: Date)
    requires ValidDate(a) && ValidDate(b) && Before(a, b)
    ensures Ordinal(a) < Ordinal(b)
  {
    if a.year < b.year {
      if a.month < 12 {
        MonthsBefore(a.year, a.month, 12);
      }
      YearStep(a.year);
      DaysBeforeYearMonotone(a.year + 1, b.year);
    } else if a.month < b.month {
      MonthsBefore(a.year, a.month, b.month);
    }
  }

  /** The day before `d`. */
  function Prev(d: Date): (p: Date)
    requires ValidDate(d) && d != Epoch
    ensures ValidDate(p) && Before(p, d)
    ensures Ordinal(p) == Ordinal(d) - 1
  {
    if d.day > 1 then
      Date(d.year, d.month, d.day - 1)
    else if d.month > 1 then
      MonthStep(d.year, d.month - 1);
      Date(d.year, d.month - 1, DaysInMonth(d.year, d.month - 1))
    else
      YearStep(d.year - 1);
      Date(d.year - 1, 12, 31)
  }

  /**
   * `d - timedelta(days=n)`: the date `n` days before `d`, or None where Python raises
   * OverflowError because that date would fall before 0001-01-01.
   */
  function SubDays(d: Date, n: nat): (r: Option<Date>)
    requires ValidDate(d)
    ensures r.Some? <==> n < Ordinal(d)
    ensures r.Some? ==> ValidDate(r.value) && Ordinal(r.value) == Ordinal(d) - n && LessEq(r.value, d)
    decreases n
  {
    if n == 0 then OrdinalPositive(d); Some(d)
    else if d == Epoch then EpochOrdinal(); None
    else SubDays(Prev(d), n - 1)
  }

  /** Subtracting `n` from a number moves its residue modulo 7 back by `n`. */
  lemma ModSevenBack(a: int, n: int)
    ensures (a - n + 6) % 7 == ((a + 6) % 7 - n) % 7
  {
    var q, r := (a + 6) / 7, (a + 6) % 7;
    assert a - n + 6 == 7 * q + (r - n);
  }

  /** The weekday moves back by one for each day subtracted. */
  lemma WeekdayBack(d: Date, e: Date, n: int)
    requires ValidDate(d) && ValidDate(e)
    requires Ordinal(e) == Ordinal(d) - n
    ensures Weekday(e) == (Weekday(d) - n) % 7
  {
    ModSevenBack(Ordinal(d), n);
  }

  /** The character of the decimal digit `k`. */
  function Digit(k: int): char
    requires 0 <= k < 10
  {
    ('0' as int + k) as char
  }

  function Pow10(w: nat): nat {
    if w == 0 then 1 else 10 * Pow10(w - 1)
  }

  /** The last `width` decimal digits of `n`, zero-padded (`%0<width>d`). */
  function PadDigits(n: nat, width: nat): (s: string)
    ensures |s| == width
  {
    if width == 0 then [] else PadDigits(n / 10, width - 1) + [Digit(n % 10)]
  }

  /** Zero-padded numbers below 10^width are told apart by their text. */
  lemma {:induction false} PadDigitsInjective(a: nat, b: nat, width: nat)
    requires a < Pow10(width) && b < Pow10(width)
    requires PadDigits(a, width) == PadDigits(b, width)
    ensures a == b
  {
    if width > 0 {
      var sa, sb := PadDigits(a, width), PadDigits(b, width);
      assert sa[width - 1] == Digit(a % 10) && sb[width - 1] == Digit(b % 10);
      assert a % 10 == b % 10;
      assert sa[..width - 1] == PadDigits(a / 10, width - 1);
      assert sb[..width - 1] == PadDigits(b / 10, width - 1);
      PadDigitsInjective(a / 10, b / 10, width - 1);
    }
  }

  /** `d.strftime('%Y-%m-%d')`. */
  function IsoText(d: Date): (s: string)
    requires ValidDate(d)
    ensures |s| == 10
  {
    PadDigits(d.year, 4) + "-" + PadDigits(d.month, 2) + "-" + PadDigits(d.day, 2)
  }

  /** Distinct dates have distinct `YYYY-MM-DD` texts. */
  lemma IsoTextInjective(a: Date, b: Date)
    requires ValidDate(a) && ValidDate(b)
    requires IsoText(a) == IsoText(b)
    ensures a == b
  {
    var sa, sb := IsoText(a), IsoText(b);
    assert sa[..4] == PadDigits(a.year, 4) && sb[..4] == PadDigits(b.year, 4);
    assert sa[5..7] == PadDigits(a.month, 2) && sb[5..7] == PadDigits(b.month, 2);
    assert sa[8..] == PadDigits(a.day, 2) && sb[8..] == PadDigits(b.day, 2);
    assert Pow10(2) == 100 && Pow10(4) == 10000;
    PadDigitsInjective(a.year, b.year, 4);
    PadDigitsInjective(a.month, b.month, 2);
    PadDigitsInjective(a.day, b.day, 2);
  }
}
