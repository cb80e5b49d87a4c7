/**
 * main.py: the reporting periods the dashboard and the export tab pass to the store, the year
 * and month pickers, and the category list offered for manual entry.
 *
 * "Today" is a parameter: it stands for `datetime.now().date()`.
 */
module App {
  import opened Wrappers
  import opened Calendar
  import Collation
  import Database
  import Gemini

  /** A date range passed to `date BETWEEN start AND end`, both ends included. */
  datatype Range = Range(start: Date, end: Date)

  predicate InRange(d: Date, r: Range) {
    LessEq(r.start, d) && LessEq(d, r.end)
  }

  predicate ValidRange(r: Range) {
    ValidDate(r.start) && ValidDate(r.end) && LessEq(r.start, r.end)
  }

  /**
   * Monthly view: day 1 to `calendar.monthrange(year, month)[1]`. None where `datetime(...)`
   * raises ValueError because the year is outside 1..9999.
   */
  function MonthlyRange(year: int, month: int): (r: Option<Range>)
    requires 1 <= month <= 12
    ensures r.Some? <==> MinYear <= year <= MaxYear
    ensures r.Some? ==> ValidRange(r.value) && r.value.start.day == 1
    ensures r.Some? ==> r.value.end.day == DaysInMonth(year, month)
    ensures r.Some? ==> forall d :: ValidDate(d) ==> (InRange(d, r.value) <==> d.year == year && d.month == month)
  {
    if MinYear <= year <= MaxYear then
      Some(Range(Date(year, month, 1), Date(year, month, DaysInMonth(year, month))))
    else
      None
  }

  /** Yearly view: January 1 to December 31. */
  function YearlyRange(year: int): (r: Option<Range>)
    ensures r.Some? <==> MinYear <= year <= MaxYear
    ensures r.Some? ==> ValidRange(r.value)
    ensures r.Some? ==> forall d :: ValidDate(d) ==> (InRange(d, r.value) <==> d.year == year)
  {
    if MinYear <= year <= MaxYear then Some(Range(Date(year, 1, 1), Date(year, 12, 31))) else None
  }

  /** The choices of the "Select Export Period" box; a filtered range carries its two date pickers. */
  datatype ExportPeriod =
    | FilteredRange(from: Date, to: Date)
    | ThisWeek
    | LastWeek
    | ThisMonth
    | LastMonth
    | ThisYear

  /**
   * The export range for a period. None where a `date - timedelta(...)` would fall before
   * 0001-01-01 and Python raises OverflowError.
   */
  function ExportRange(today: Date, period: ExportPeriod): (r: Option<Range>)
    requires ValidDate(today)
    ensures period.FilteredRange? ==> r == Some(Range(period.from, period.to))
    ensures period.ThisWeek? || period.ThisMonth? || period.ThisYear? ==> r.Some? ==> r.value.end == today
    ensures period.ThisMonth? || period.ThisYear? ==> r.Some? && r.value.start.year == today.year
  {
    match period
    case FilteredRange(from, to) => Some(Range(from, to))
    case ThisWeek =>
      (match SubDays(today, Weekday(today))
       case Some(monday) => Some(Range(monday, today))
       case None => None)
    case LastWeek =>
      (match SubDays(today, Weekday(today) + 1)
       case None => None
       case Some(endOfLastWeek) =>
         (match SubDays(endOfLastWeek, 6)
          case Some(start) => Some(Range(start, endOfLastWeek))
          case None => None))
    case ThisMonth => Some(Range(today.(day := 1), today))
    case LastMonth =>
      (match SubDays(today.(day := 1), 1)
       case Some(endOfLastMonth) => Some(Range(endOfLastMonth.(day := 1), endOfLastMonth))
       case None => None)
    case ThisYear => Some(Range(today.(month := 1, day := 1), today))
  }

  /**
   * Every preset period is a valid range that ends no later than today. Only Last Week and Last
   * Month can fail, and only where their first day would fall before 0001-01-01.
   */
  lemma ExportRangeSound(today: Date, period: ExportPeriod)
    requires ValidDate(today)
    ensures var r := ExportRange(today, period);
            !period.FilteredRange? && r.Some? ==> ValidRange(r.value) && LessEq(r.value.end, today)
    ensures ExportRange(today, period).None? <==>
              || (period.LastWeek? && Ordinal(today) <= Weekday(today) + 7)
              || (period.LastMonth? && today.year == MinYear && today.month == 1)
  {
    match period
    case FilteredRange(_, _) =>
    case ThisWeek => ThisWeekRange(today);
    case LastWeek =>
      LastWeekRange(today);
      var e := LastWeekEnd(today);
    case ThisMonth => ThisMonthAndThisYearRanges(today);
    case ThisYear => ThisMonthAndThisYearRanges(today);
    case LastMonth =>
      LastMonthRange(today);
      var e := EndOfLastMonth(today);
      if e.Some? {
        LessEqTransitive(e.value, today.(day := 1), today);
      }
  }

  /** Two Mondays lie a multiple of seven days apart, so none falls strictly inside a week. */
  lemma MondaysApart(o: int, m: int, t: int)
    requires (o + 6) % 7 == 0 && (m + 6) % 7 == 0
    requires o <= t && 0 <= t - m <= 6
    ensures o <= m
  {
    var qo, qm := (o + 6) / 7, (m + 6) / 7;
    assert o + 6 == 7 * qo && m + 6 == 7 * qm;
  }

  /** A weekday number is smaller than any ordinal it is computed from. */
  lemma WeekdayOfOrdinal(o: int)
    requires o >= 1
    ensures (o + 6) % 7 < o
  {
  }

  /** The Monday of the week `today` falls in. */
  lemma ThisWeekStart(today: Date) returns (monday: Date)
    requires ValidDate(today)
    ensures ValidDate(monday) && LessEq(monday, today)
    ensures Ordinal(monday) == Ordinal(today) - Weekday(today)
    ensures SubDays(today, Weekday(today)) == Some(monday)
  {
    var o, w := Ordinal(today), Weekday(today);
    OrdinalPositive(today);
    WeekdayOfOrdinal(o);
    assert w < o;
    var r := SubDays(today, w);
    monday := r.value;
  }

  /** No Monday on or before today falls after the Monday of today's week. */
  lemma NoLaterMonday(today: Date, monday: Date, d: Date)
    requires ValidDate(today) && ValidDate(monday) && ValidDate(d)
    requires Weekday(monday) == 0 && 0 <= Ordinal(today) - Ordinal(monday) <= 6
    requires Weekday(d) == 0 && LessEq(d, today)
    ensures LessEq(d, monday)
  {
    OrdinalOrder(d, today);
    OrdinalOrder(d, monday);
    MondaysApart(Ordinal(d), Ordinal(monday), Ordinal(today));
  }

  /** "This Week" runs from the latest Monday on or before today up to today. */
  lemma ThisWeekRange(today: Date)
    requires ValidDate(today)
    ensures ExportRange(today, ThisWeek).Some?
    ensures var r := ExportRange(today, ThisWeek).value;
            && ValidRange(r) && r.end == today
            && Weekday(r.start) == 0
            && 0 <= Ordinal(today) - Ordinal(r.start) <= 6
            && forall d :: ValidDate(d) && Weekday(d) == 0 && LessEq(d, today) ==> LessEq(d, r.start)
  {
    var monday := ThisWeekStart(today);
    WeekdayBack(today, monday, Weekday(today));
    forall d | ValidDate(d) && Weekday(d) == 0 && LessEq(d, today) ensures LessEq(d, monday) {
      NoLaterMonday(today, monday, d);
    }
  }

  /** `end_of_last_week`: the Sunday before the Monday of today's week. */
  lemma LastWeekEnd(today: Date) returns (e: Option<Date>)
    requires ValidDate(today)
    ensures e == SubDays(today, Weekday(today) + 1)
    ensures e.Some? <==> Weekday(today) + 1 < Ordinal(today)
    ensures e.Some? ==> ValidDate(e.value) && Weekday(e.value) == 6
    ensures e.Some? ==> Ordinal(e.value) == Ordinal(today) - Weekday(today) - 1
  {
    e := SubDays(today, Weekday(today) + 1);
    if e.Some? {
      WeekdayBack(today, e.value, Weekday(today) + 1);
    }
  }

  /** `n` days back from `e`, with the weekday it lands on. */
  lemma DaysBack(e: Date, n: nat) returns (s: Option<Date>)
    requires ValidDate(e)
    ensures s == SubDays(e, n)
    ensures s.Some? <==> n < Ordinal(e)
    ensures s.Some? ==> ValidDate(s.value) && Weekday(s.value) == (Weekday(e) - n) % 7
    ensures s.Some? ==> Ordinal(s.value) == Ordinal(e) - n
  {
    s := SubDays(e, n);
    if s.Some? {
      WeekdayBack(e, s.value, n);
    }
  }

  /** Six days before a Sunday is a Monday. */
  lemma LastWeekStart(e: Date) returns (s: Option<Date>)
    requires ValidDate(e) && Weekday(e) == 6
    ensures s == SubDays(e, 6)
    ensures s.Some? <==> 6 < Ordinal(e)
    ensures s.Some? ==> ValidDate(s.value) && Weekday(s.value) == 0 && Ordinal(s.value) == Ordinal(e) - 6
  {
    s := DaysBack(e, 6);
  }

  /** "Last Week" is the Monday-to-Sunday week that ends the day before this week's Monday. */
  lemma LastWeekRange(today: Date)
    requires ValidDate(today)
    ensures ExportRange(today, LastWeek).Some? <==> Weekday(today) + 7 < Ordinal(today)
    ensures var r := ExportRange(today, LastWeek);
            r.Some? ==>
              && ValidRange(r.value)
              && Weekday(r.value.start) == 0 && Weekday(r.value.end) == 6
              && Ordinal(r.value.end) - Ordinal(r.value.start) == 6
              && var thisWeek := ExportRange(today, ThisWeek);
                 thisWeek.Some? && ValidDate(thisWeek.value.start) && thisWeek.value.start != Epoch
                 && r.value.end == Prev(thisWeek.value.start)
  {
    var monday := ThisWeekStart(today);
    var e := LastWeekEnd(today);
    if e.Some? {
      var s := LastWeekStart(e.value);
      if s.Some? {
        assert ExportRange(today, LastWeek) == Some(Range(s.value, e.value));
        OrdinalPositive(monday);
        OrdinalOrder(Prev(monday), e.value);
      } else {
        assert ExportRange(today, LastWeek) == None;
      }
    } else {
      assert ExportRange(today, LastWeek) == None;
    }
  }

  /** "This Month" is the month to date, "This Year" the year to date. */
  lemma ThisMonthAndThisYearRanges(today: Date)
    requires ValidDate(today)
    ensures ExportRange(today, ThisMonth).Some? && ExportRange(today, ThisYear).Some?
    ensures var r := ExportRange(today, ThisMonth).value;
            && ValidRange(r) && r.start.day == 1 && r.end == today
            && forall d :: ValidDate(d) ==> (InRange(d, r) <==> d.year == today.year && d.month == today.month && LessEq(d, today))
    ensures var r := ExportRange(today, ThisYear).value;
            && ValidRange(r) && r.start.month == 1 && r.start.day == 1 && r.end == today
            && forall d :: ValidDate(d) ==> (InRange(d, r) <==> d.year == today.year && LessEq(d, today))
  {
  }

  /** `today.replace(day=1) - timedelta(days=1)`: the day before the first of the month. */
  lemma EndOfLastMonth(today: Date) returns (e: Option<Date>)
    requires ValidDate(today)
    ensures ValidDate(today.(day := 1))
    ensures e == SubDays(today.(day := 1), 1)
    ensures e.Some? <==> today.(day := 1) != Epoch
    ensures e.Some? ==> e.value == Prev(today.(day := 1))
  {
    var first := today.(day := 1);
    OrdinalPositive(first);
    e := SubDays(first, 1);
    if e.Some? {
      OrdinalOrder(e.value, Prev(first));
    }
  }

  /** "Last Month" is the whole calendar month before today's. */
  lemma LastMonthRange(today: Date)
    requires ValidDate(today)
    ensures ExportRange(today, LastMonth).Some? <==> !(today.year == MinYear && today.month == 1)
    ensures var r := ExportRange(today, LastMonth);
            r.Some? ==>
              && ValidRange(r.value)
              && r.value.start.day == 1
              && r.value.start.year == r.value.end.year && r.value.start.month == r.value.end.month
              && r.value.end.day == DaysInMonth(r.value.end.year, r.value.end.month)
              && Ordinal(r.value.end) == Ordinal(today.(day := 1)) - 1
              && (if today.month > 1
                  then r.value.end.year == today.year && r.value.end.month == today.month - 1
                  else r.value.end.year == today.year - 1 && r.value.end.month == 12)
  {
    var e := EndOfLastMonth(today);
    if e.Some? {
      assert ExportRange(today, LastMonth) == Some(Range(e.value.(day := 1), e.value));
    } else {
      assert ExportRange(today, LastMonth) == None;
    }
  }

  /** The defaults of the "From" and "To" pickers: thirty days ago, and today. */
  function DefaultFilteredRange(today: Date): (r: Option<Range>)
    requires ValidDate(today)
    ensures r.Some? <==> 30 < Ordinal(today)
    ensures r.Some? ==> ValidRange(r.value) && r.value.end == today
    ensures r.Some? ==> Ordinal(today) - Ordinal(r.value.start) == 30
  {
    match SubDays(today, 30)
    case Some(from) => Some(Range(from, today))
    case None => None
  }

  /** The year list: the user's years, or the current year alone when there are none. */
  function AvailableYears(userYears: seq<int>, currentYear: int): (ys: seq<int>)
    ensures ys != []
    ensures userYears != [] ==> ys == userYears
    ensures userYears == [] ==> ys == [currentYear]
  {
    if userYears != [] then userYears else [currentYear]
  }

  /**
   * The year box is preselected with the first entry: the latest year with an expense, or the
   * current year for a user with none.
   */
  lemma DefaultYearIsLatest(db: Database.DatabaseManager, userId: int, currentYear: int)
    ensures var ys := AvailableYears(db.GetUserExpenseYears(userId), currentYear);
            && Collation.StrictlySorted(ys, Collation.Descending())
            && ((forall x :: x in db.expenses ==> x.userId != userId) ==> ys == [currentYear])
            && ((exists x :: x in db.expenses && x.userId == userId) ==>
                  && (exists x :: x in db.expenses && x.userId == userId && x.date.year == ys[0])
                  && (forall x :: x in db.expenses && x.userId == userId ==> x.date.year <= ys[0]))
  {
    var years := db.GetUserExpenseYears(userId);
    assert years == [] || years[0] in years;
    if exists x :: x in db.expenses && x.userId == userId {
      var x0 :| x0 in db.expenses && x0.userId == userId;
      assert x0.date.year in years;
      assert years[0] in years;
      forall x | x in db.expenses && x.userId == userId ensures x.date.year <= years[0] {
        assert x.date.year in years;
        var k :| 0 <= k < |years| && years[k] == x.date.year;
        assert k == 0 || years[0] > years[k];
      }
    }
  }

  /** `list(calendar.month_name)[1:]` in the English locale. */
  const MonthNames: seq<string> := [
    "January", "February", "March", "April", "May", "June",
    "July", "August", "September", "October", "November", "December"
  ]

  /** `list.index`: the first position holding `x`. */
  function IndexOf(xs: seq<string>, x: string): (i: int)
    requires x in xs
    ensures 0 <= i < |xs| && xs[i] == x
    ensures forall j :: 0 <= j < i ==> xs[j] != x
  {
    if xs[0] == x then 0 else 1 + IndexOf(xs[1..], x)
  }

  /** The index preselected in the month box: `datetime.now().month - 1`. */
  function DefaultMonthIndex(today: Date): (i: int)
    requires ValidDate(today)
    ensures 0 <= i < |MonthNames|
  {
    today.month - 1
  }

  /** `month_names.index(selected_month_name) + 1`, the month number of a chosen name. */
  function SelectedMonth(name: string): (m: int)
    requires name in MonthNames
    ensures 1 <= m <= 12 && MonthNames[m - 1] == name
  {
    IndexOf(MonthNames, name) + 1
  }

  /** No month name occurs twice. */
  lemma MonthNamesDistinct()
    ensures forall j, k :: 0 <= j < k < |MonthNames| ==> MonthNames[j] != MonthNames[k]
  {
  }

  /** In a list without repetitions, the first position of an element is its position. */
  lemma IndexOfDistinct(xs: seq<string>, i: int)
    requires forall j, k :: 0 <= j < k < |xs| ==> xs[j] != xs[k]
    requires 0 <= i < |xs|
    ensures IndexOf(xs, xs[i]) == i
  {
  }

  /** Leaving the month box at its default selects the current month. */
  lemma DefaultMonthIsCurrent(today: Date)
    requires ValidDate(today)
    ensures SelectedMonth(MonthNames[DefaultMonthIndex(today)]) == today.month
  {
    MonthNamesDistinct();
    IndexOfDistinct(MonthNames, DefaultMonthIndex(today));
  }

  /** `sorted(list(set(DEFAULT_CATEGORIES + user_categories)))`. */
  function CombinedCategories(userCategories: seq<string>): (cs: seq<string>)
    ensures Collation.StrictlySorted(cs, Collation.Ascending())
    ensures forall i, j :: 0 <= i < j < |cs| ==> cs[i] != cs[j]
    ensures forall c :: c in cs <==> c in Gemini.DefaultCategories || c in userCategories
  {
    Collation.DistinctSorted(Gemini.DefaultCategories + userCategories, Collation.Ascending())
  }

  /**
   * The combined list depends only on which categories occur: any sorted duplicate-free list of
   * the same categories is this list, whatever the order and repetitions of the user's list.
   */
  lemma CombinedCategoriesCanonical(userCategories: seq<string>, other: seq<string>)
    requires Collation.StrictlySorted(other, Collation.Ascending())
    requires forall c :: c in other <==> c in Gemini.DefaultCategories || c in userCategories
    ensures other == CombinedCategories(userCategories)
  {
    Collation.SortedByElements(other, CombinedCategories(userCategories), Collation.Ascending());
  }

  /** The amount filter both tabs pass: `(0, float('inf'))`. */
  const AnyAmount := Some(Database.AmountRange(0.0, Database.Unbounded))

  /**
   * The export tab filters by all of the user's categories. On the stored rows this is the same
   * as no category filter.
   */
  lemma ExportCategoriesDoNotFilter(db: Database.DatabaseManager, userId: int, start: Date, end: Date, x: Database.ExpenseRow)
    requires x in db.expenses
    ensures Database.Wanted(x, userId, start, end, db.GetUserCategories(userId), AnyAmount)
        <==> Database.Wanted(x, userId, start, end, [], AnyAmount)
  {
    if x.userId == userId {
      assert x.category in db.GetUserCategories(userId);
    }
  }
}
