/**
 * The two semester tables of the project's helper module: the date window a
 * (year, semester) pair names, and the month abbreviations a semester spans.
 * The two tables are not the same: the window knows Spring, Summer and Winter,
 * the month list knows Spring, Summer and Fall, and their Summers differ.
 */
module SemesterHelpers {
  import opened Wrappers
  import opened Calendar

  /** Python's ValueError with its message. */
  datatype ValueError = ValueError(message: string)

  const INVALID_SEMESTER_DATES := "Invalid semester. Choose between 'Spring', 'Summer', or 'Winter'."
  const INVALID_SEMESTER_MONTHS := "Invalid semester"

  // ---------------------------------------------------------------------------
  // get_semester_dates

  predicate IsWindowTag(semester: string) {
    semester == "Spring" || semester == "Summer" || semester == "Winter"
  }

  /** The first and the last day of the semester window, as dates. */
  function SemesterDateRange(year: int, semester: string): (r: Result<(Date, Date), ValueError>)
    ensures r.Success? <==> IsWindowTag(semester)
    ensures r.Failure? ==> r.error == ValueError(INVALID_SEMESTER_DATES)
    ensures r.Success? ==>
      var (first, last) := r.value;
      first.year == year && last.year == year
      && ValidDate(first) && ValidDate(last)
      && first.day == 1 && last.day == DaysInMonth(last.year, last.month)
      && DateLe(first, last) && first != last
  {
    if semester == "Spring" then Success((Date(year, 1, 1), Date(year, 6, 30)))
    else if semester == "Summer" then Success((Date(year, 6, 1), Date(year, 7, 31)))
    else if semester == "Winter" then Success((Date(year, 8, 1), Date(year, 12, 31)))
    else Failure(ValueError(INVALID_SEMESTER_DATES))
  }

  /** get_semester_dates: the window as two strings f'{year}-MM-DD', or the ValueError. */
  function GetSemesterDates(year: int, semester: string): (r: Result<(string, string), ValueError>)
    ensures r.Success? <==> IsWindowTag(semester)
    ensures r.Failure? ==> r.error == ValueError(INVALID_SEMESTER_DATES)
  {
    var (first, last) :- SemesterDateRange(year, semester);
    Success((FormatDate(first), FormatDate(last)))
  }

  /** The three windows, written out as the source spells them. */
  lemma SemesterDatesTable(year: int)
    ensures GetSemesterDates(year, "Spring")
            == Success((IntToString(year) + "-01-01", IntToString(year) + "-06-30"))
    ensures GetSemesterDates(year, "Summer")
            == Success((IntToString(year) + "-06-01", IntToString(year) + "-07-31"))
    ensures GetSemesterDates(year, "Winter")
            == Success((IntToString(year) + "-08-01", IntToString(year) + "-12-31"))
  {
    SpringDates(year);
    SummerDates(year);
    WinterDates(year);
  }

  lemma SpringDates(year: int)
    ensures GetSemesterDates(year, "Spring")
            == Success((IntToString(year) + "-01-01", IntToString(year) + "-06-30"))
  {
    assert SemesterDateRange(year, "Spring") == Success((Date(year, 1, 1), Date(year, 6, 30)));
    assert Pad2(1) == "01" && Pad2(1) == "01" && Pad2(6) == "06" && Pad2(30) == "30";
    FormattedAs(year, 1, 1, "-01-01");
    FormattedAs(year, 6, 30, "-06-30");
  }

  lemma SummerDates(year: int)
    ensures GetSemesterDates(year, "Summer")
            == Success((IntToString(year) + "-06-01", IntToString(year) + "-07-31"))
  {
    assert SemesterDateRange(year, "Summer") == Success((Date(year, 6, 1), Date(year, 7, 31)));
    assert Pad2(6) == "06" && Pad2(1) == "01" && Pad2(7) == "07" && Pad2(31) == "31";
    FormattedAs(year, 6, 1, "-06-01");
    FormattedAs(year, 7, 31, "-07-31");
  }

  lemma WinterDates(year: int)
    ensures GetSemesterDates(year, "Winter")
            == Success((IntToString(year) + "-08-01", IntToString(year) + "-12-31"))
  {
    assert SemesterDateRange(year, "Winter") == Success((Date(year, 8, 1), Date(year, 12, 31)));
    assert Pad2(8) == "08" && Pad2(1) == "01" && Pad2(12) == "12" && Pad2(31) == "31";
    FormattedAs(year, 8, 1, "-08-01");
    FormattedAs(year, 12, 31, "-12-31");
  }

  /** One bound string: str(year) followed by its "-MM-DD" suffix. */
  lemma FormattedAs(year: int, month: int, day: int, suffix: string)
    requires ValidDate(Date(year, month, day)) && "-" + Pad2(month) + "-" + Pad2(day) == suffix
    ensures FormatDate(Date(year, month, day)) == IntToString(year) + suffix
  {
    var y := IntToString(year);
    assert y + "-" + Pad2(month) + "-" + Pad2(day) == y + ("-" + Pad2(month) + "-" + Pad2(day));
  }

  /** For four-digit years both strings are YYYY-MM-DD and read back as the window's dates. */
  lemma SemesterDatesReadBack(year: int, semester: string)
    requires 1000 <= year <= 9999 && IsWindowTag(semester)
    ensures
      var (a, b) := GetSemesterDates(year, semester).value;
      var (first, last) := SemesterDateRange(year, semester).value;
      IsIsoShape(a) && IsIsoShape(b)
      && ParseIsoDate(a) == Some(first) && ParseIsoDate(b) == Some(last)
  {
    var (first, last) := SemesterDateRange(year, semester).value;
    FormatDateRoundTrip(first);
    FormatDateRoundTrip(last);
  }

  predicate InRange(d: Date, range: (Date, Date)) {
    DateLe(range.0, d) && DateLe(d, range.1)
  }

  /** Spring and Summer share exactly the days of June. */
  lemma SpringSummerOverlap(year: int, d: Date)
    requires ValidDate(d)
    ensures
      var spring := SemesterDateRange(year, "Spring").value;
      var summer := SemesterDateRange(year, "Summer").value;
      InRange(d, spring) && InRange(d, summer) <==> d.year == year && d.month == 6
  {
  }

  /** Summer and Winter share no day, and Winter starts on the day after Summer ends. */
  lemma SummerWinterAdjacent(year: int, d: Date)
    requires ValidDate(d)
    ensures
      var summer := SemesterDateRange(year, "Summer").value;
      var winter := SemesterDateRange(year, "Winter").value;
      !(InRange(d, summer) && InRange(d, winter)) && NextDay(summer.1) == winter.0
  {
  }

  // ---------------------------------------------------------------------------
  // get_semester_months

  predicate IsMonthsTag(semester: string) {
    semester == "Spring" || semester == "Summer" || semester == "Fall"
  }

  /** Python's datetime(year, m, d) accepts the years 1 to 9999 only. */
  predicate DatetimeYear(year: int) {
    1 <= year <= 9999
  }

  /** The two datetime() bounds of get_semester_months, or the ValueError raised on the way. */
  function MonthsBounds(year: int, semester: string): (r: Result<(Date, Date), ValueError>)
    ensures r.Success? <==> IsMonthsTag(semester) && DatetimeYear(year)
    ensures !IsMonthsTag(semester) ==> r == Failure(ValueError(INVALID_SEMESTER_MONTHS))
    ensures IsMonthsTag(semester) && !DatetimeYear(year) ==>
      r == Failure(ValueError("year " + IntToString(year) + " is out of range"))
    ensures r.Success? ==>
      var (first, last) := r.value;
      first.year == year && last.year == year && ValidDate(first) && ValidDate(last)
      && first.day == 1 && DateLe(first, last)
  {
    if !IsMonthsTag(semester) then Failure(ValueError(INVALID_SEMESTER_MONTHS))
    else if !DatetimeYear(year) then Failure(ValueError("year " + IntToString(year) + " is out of range"))
    else if semester == "Spring" then Success((Date(year, 1, 1), Date(year, 6, 30)))
    else if semester == "Summer" then Success((Date(year, 6, 1), Date(year, 8, 31)))
    else Success((Date(year, 9, 1), Date(year, 12, 31)))
  }

  /** Months are numbered consecutively across years: month k is (k / 12, k % 12 + 1). */
  function MonthIndex(d: Date): int {
    d.year * 12 + d.month - 1
  }

  function MonthStart(k: int): (d: Date)
    ensures ValidDate(d) && d.day == 1 && MonthIndex(d) == k
  {
    Date(k / 12, k % 12 + 1, 1)
  }

  function NextMonthStart(d: Date): Date {
    if d.month < 12 then Date(d.year, d.month + 1, 1) else Date(d.year + 1, 1, 1)
  }

  lemma MonthStartOfIndex(d: Date)
    requires ValidDate(d) && d.day == 1
    ensures MonthStart(MonthIndex(d)) == d
  {
    var k := MonthIndex(d);
    assert k == 12 * d.year + (d.month - 1) && 0 <= d.month - 1 < 12;
    assert k / 12 == d.year && k % 12 == d.month - 1;
  }

  /** Month numbers follow the order of (year, month). */
  lemma MonthIndexOrder(d: Date, e: Date)
    requires 1 <= d.month <= 12 && 1 <= e.month <= 12
    ensures MonthIndex(d) < MonthIndex(e) <==> d.year < e.year || (d.year == e.year && d.month < e.month)
    ensures MonthIndex(d) == MonthIndex(e) <==> d.year == e.year && d.month == e.month
  {
    if d.year < e.year {
      assert MonthIndex(d) <= d.year * 12 + 11 < (d.year + 1) * 12 <= MonthIndex(e);
    } else if e.year < d.year {
      assert MonthIndex(e) <= e.year * 12 + 11 < (e.year + 1) * 12 <= MonthIndex(d);
    }
  }

  /** The number of the first month that starts on or after d. */
  function FirstMonthOnOrAfter(d: Date): int {
    if d.day == 1 then MonthIndex(d) else MonthIndex(d) + 1
  }

  /** The months numbered lo, lo + 1, ..., hi, as first-of-month dates. */
  function MonthRange(lo: int, hi: int): (r: seq<Date>)
    ensures |r| == (if lo <= hi then hi - lo + 1 else 0)
    ensures forall i :: 0 <= i < |r| ==> r[i] == MonthStart(lo + i)
  {
    seq(if lo <= hi then hi - lo + 1 else 0, i => MonthStart(lo + i))
  }

  lemma MonthRangeBounded(first: Date, last: Date)
    requires ValidDate(first) && ValidDate(last)
    ensures var r := MonthRange(FirstMonthOnOrAfter(first), MonthIndex(last));
      forall i :: 0 <= i < |r| ==> DateLe(first, r[i]) && DateLe(r[i], last)
  {
    var r := MonthRange(FirstMonthOnOrAfter(first), MonthIndex(last));
    forall i | 0 <= i < |r| ensures DateLe(first, r[i]) && DateLe(r[i], last) {
      MonthIndexOrder(first, r[i]);
      MonthIndexOrder(r[i], last);
    }
  }

  lemma MonthRangeConsecutive(lo: int, hi: int)
    ensures var r := MonthRange(lo, hi);
      forall i :: 0 < i < |r| ==> r[i] == NextMonthStart(r[i - 1])
  {
    var r := MonthRange(lo, hi);
    forall i | 0 < i < |r| ensures r[i] == NextMonthStart(r[i - 1]) {
      MonthStartOfIndex(NextMonthStart(r[i - 1]));
    }
  }

  lemma MonthRangeComplete(first: Date, last: Date, d: Date)
    requires ValidDate(first) && ValidDate(last)
    requires ValidDate(d) && d.day == 1 && DateLe(first, d) && DateLe(d, last)
    ensures d in MonthRange(FirstMonthOnOrAfter(first), MonthIndex(last))
  {
    var lo := FirstMonthOnOrAfter(first);
    var r := MonthRange(lo, MonthIndex(last));
    MonthStartOfIndex(d);
    MonthIndexOrder(first, d);
    MonthIndexOrder(d, last);
    assert r[MonthIndex(d) - lo] == d;
  }

  /**
   * pd.date_range(first, last, freq='MS'): every first-of-month between the two
   * dates, both included, in calendar order.
   */
  function MonthStarts(first: Date, last: Date): (r: seq<Date>)
    requires ValidDate(first) && ValidDate(last)
    ensures forall i :: 0 <= i < |r| ==>
      ValidDate(r[i]) && r[i].day == 1 && DateLe(first, r[i]) && DateLe(r[i], last)
    ensures forall i :: 0 < i < |r| ==> r[i] == NextMonthStart(r[i - 1])
    ensures forall d :: ValidDate(d) && d.day == 1 && DateLe(first, d) && DateLe(d, last) ==> d in r
  {
    MonthRangeBounded(first, last);
    MonthRangeConsecutive(FirstMonthOnOrAfter(first), MonthIndex(last));
    assert forall d :: (ValidDate(d) && d.day == 1 && DateLe(first, d) && DateLe(d, last)
                        ==> d in MonthRange(FirstMonthOnOrAfter(first), MonthIndex(last))) by {
      forall d | ValidDate(d) && d.day == 1 && DateLe(first, d) && DateLe(d, last)
        ensures d in MonthRange(FirstMonthOnOrAfter(first), MonthIndex(last))
      {
        MonthRangeComplete(first, last, d);
      }
    }
    MonthRange(FirstMonthOnOrAfter(first), MonthIndex(last))
  }

  /** From the first of a month to a later day of the same year: one entry per month, in order. */
  lemma {:induction false} SameYearMonthStarts(first: Date, last: Date)
    requires ValidDate(first) && ValidDate(last) && first.year == last.year
    requires first.day == 1 && first.month <= last.month
    ensures var r := MonthStarts(first, last);
      |r| == last.month - first.month + 1
      && forall i :: 0 <= i < |r| ==> r[i] == Date(first.year, first.month + i, 1)
  {
    var r := MonthStarts(first, last);
    forall i | 0 <= i < |r| ensures r[i] == Date(first.year, first.month + i, 1) {
      MonthStartOfIndex(Date(first.year, first.month + i, 1));
    }
  }

  const MONTH_ABBREVIATIONS: seq<string> :=
    ["Jan", "Feb", "Mar", "Apr", "May", "Jun", "Jul", "Aug", "Sep", "Oct", "Nov", "Dec"]

  /** strftime('%b') in the C locale. */
  function MonthAbbreviation(d: Date): (s: string)
    requires 1 <= d.month <= 12
    ensures |s| == 3
    ensures s in MONTH_ABBREVIATIONS
  {
    MONTH_ABBREVIATIONS[d.month - 1]
  }

  /** get_semester_months: the abbreviations of the months the semester spans, or the ValueError. */
  function GetSemesterMonths(year: int, semester: string): (r: Result<seq<string>, ValueError>)
    ensures r.Success? <==> IsMonthsTag(semester) && DatetimeYear(year)
    ensures r.Failure? ==> r.error == MonthsBounds(year, semester).error
  {
    var (first, last) :- MonthsBounds(year, semester);
    var starts := MonthStarts(first, last);
    Success(seq(|starts|, i requires 0 <= i < |starts| => MonthAbbreviation(starts[i])))
  }

  /**
   * The list runs consecutively from the first bound's month to the last bound's
   * month, one entry each, because every first bound is the first of its month.
   */
  lemma MonthsConsecutive(year: int, semester: string)
    requires GetSemesterMonths(year, semester).Success?
    ensures
      var (first, last) := MonthsBounds(year, semester).value;
      var r := GetSemesterMonths(year, semester).value;
      |r| == last.month - first.month + 1
      && forall i :: 0 <= i < |r| ==> r[i] == MONTH_ABBREVIATIONS[first.month - 1 + i]
  {
    var (first, last) := MonthsBounds(year, semester).value;
    SameYearMonthStarts(first, last);
  }

  /** The month table, written out. */
  lemma SemesterMonthsTable(year: int)
    requires DatetimeYear(year)
    ensures GetSemesterMonths(year, "Spring") == Success(["Jan", "Feb", "Mar", "Apr", "May", "Jun"])
    ensures GetSemesterMonths(year, "Summer") == Success(["Jun", "Jul", "Aug"])
    ensures GetSemesterMonths(year, "Fall") == Success(["Sep", "Oct", "Nov", "Dec"])
  {
    MonthsConsecutive(year, "Spring");
    MonthsConsecutive(year, "Summer");
    MonthsConsecutive(year, "Fall");
    var spring := GetSemesterMonths(year, "Spring").value;
    var summer := GetSemesterMonths(year, "Summer").value;
    var fall := GetSemesterMonths(year, "Fall").value;
    assert spring == ["Jan", "Feb", "Mar", "Apr", "May", "Jun"];
    assert summer == ["Jun", "Jul", "Aug"];
    assert fall == ["Sep", "Oct", "Nov", "Dec"];
  }

  /** Within the years datetime accepts, the month list does not depend on the year. */
  lemma MonthsIgnoreYear(y1: int, y2: int, semester: string)
    requires DatetimeYear(y1) && DatetimeYear(y2)
    ensures GetSemesterMonths(y1, semester) == GetSemesterMonths(y2, semester)
  {
    SemesterMonthsTable(y1);
    SemesterMonthsTable(y2);
  }

  /** The two tables disagree: Winter has a window but no month list, Fall the converse. */
  lemma TagTablesDisagree(year: int)
    ensures GetSemesterDates(year, "Winter").Success?
    ensures GetSemesterMonths(year, "Winter") == Failure(ValueError(INVALID_SEMESTER_MONTHS))
    ensures DatetimeYear(year) ==> GetSemesterMonths(year, "Fall").Success?
    ensures GetSemesterDates(year, "Fall") == Failure(ValueError(INVALID_SEMESTER_DATES))
  {
  }

  /** Summer's month list reaches August, one month past the Summer window. */
  lemma SummerTablesDisagree(year: int)
    requires DatetimeYear(year)
    ensures
      var months := GetSemesterMonths(year, "Summer").value;
      var (_, last) := SemesterDateRange(year, "Summer").value;
      months[|months| - 1] == "Aug" && MonthAbbreviation(last) == "Jul"
  {
    SemesterMonthsTable(year);
  }
}
