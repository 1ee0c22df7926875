# Semester windows and course availability

A Dafny model of the two pieces of sequential logic in a Canvas LMS analytics
project (a thesis dashboard computing educational KPIs):

* the semester helpers of `src/utils/helpers.py` — `get_semester_dates`, which
  maps a year and a semester tag to the first and last day of the semester as
  `f'{year}-MM-DD'` strings, and `get_semester_months`, which lists the month
  abbreviations a semester spans (`pd.date_range(..., freq='MS')` over its own
  table of bounds);
* the course availability classifier
  `create_course_availability_and_activity_for_semester` of
  `src/kpi_calculator.py`, which writes the derived `start_at` / `end_at`
  columns into the caller's course DataFrame and returns
  `(active_count, inactive_count, ratio)`.

Files:

* `wrappers.dfy` — `Option` and `Result` (a raised `ValueError` is a `Failure`).
* `calendar.dfy` — dates as `(year, month, day)` triples in the proleptic
  Gregorian calendar, day numbers, the UTC instant of a date's midnight (in
  seconds since 1970-01-01T00:00Z), Python's `str(int)` and the
  `YYYY-MM-DD` rendering and reading of dates.
* `semester_helpers.dfy` — both helper functions and their tables.
* `kpi_calculator.dfy` — course rows, the two boolean masks with pandas' NaT
  semantics, the counts and the ratio, the caller's DataFrame as a class
  (`CourseFrame`) and the operation as a method that modifies only the two
  derived columns.

Modelling decisions:

* The semester windows are the code's: Spring Jan 1–Jun 30, Summer Jun 1–Jul 31
  (overlapping Spring in June), Winter Aug 1–Dec 31. The month table is a
  different one: Spring Jan–Jun, Summer Jun–Aug, Fall Sep–Dec, and it rejects
  Winter.
* The masks compare UTC timestamps with the `'YYYY-MM-DD'` strings, which
  pandas reads as 00:00 UTC of that day. The upper bound is therefore the first
  instant of the last listed day, not its end: a course created at 00:00:01 on
  June 30 is outside Spring. Read as a closed range of days, the window is
  inclusive at both ends only for day-granular timestamps (`DayGranularActive`).
* An unknown tag raises `ValueError` with the code's own messages; the
  message of `get_semester_dates` and that of `get_semester_months` differ.
* `get_semester_months` builds `datetime(year, ...)` inside the chosen
  branch, so a known tag with a year outside 1..9999 raises
  `ValueError("year N is out of range")`, while an unknown tag always raises
  `"Invalid semester"` first.
* `value.workflow_state` may be NaN (`None`): it is unequal to `'available'`,
  so such a row can be inactive. A NaT timestamp makes every comparison false,
  which is why the `.notna()` test of the inactive mask adds nothing
  (`InactiveIff`).
* The ratio is exact: `Finite(active, inactive)` when `inactive > 0`, else
  `Infinity` (Python's `float('inf')`).

## Model

| member | source | states |
|---|---|---|
| `SemesterHelpers.SemesterDateRange` | src/utils/helpers.py:9-20 | succeeds exactly for Spring, Summer and Winter, else the ValueError with the code's message; both dates are valid, carry the input year, the first is the 1st of its month, the last the last day of its month, and first comes strictly before last |
| `SemesterHelpers.GetSemesterDates` | src/utils/helpers.py:9-20 | returns the two strings exactly for the three tags and raises the invalid-semester ValueError for every other tag |
| `SemesterHelpers.SemesterDatesTable` | src/utils/helpers.py:13-18 | the strings are str(year) followed by -01-01/-06-30, -06-01/-07-31 and -08-01/-12-31 for Spring, Summer and Winter |
| `SemesterHelpers.SemesterDatesReadBack` | src/utils/helpers.py:10-18 | for four-digit years both strings have the YYYY-MM-DD shape and read back as the window's first and last dates |
| `Calendar.FormatDateRoundTrip` | src/utils/helpers.py:14-18 | rendering a valid date with a four-digit year gives YYYY-MM-DD text that parses back to the same date |
| `Calendar.NonFourDigitYearNotIso` | src/utils/helpers.py:11-14 | for every year below 1000 (negative years included) or above 9999 the rendered string is not in YYYY-MM-DD shape; with FormatDateRoundTrip, the docstring's format holds exactly for four-digit years |
| `Calendar.NatToString` | src/utils/helpers.py:14-18 | str(n) of a natural number: at least one character, every character a decimal digit (the year part of each date string) |
| `Calendar.IntToString` | src/utils/helpers.py:14-18 | str(year) of any integer: non-empty, starts with '-' exactly for negative years, all digits otherwise |
| `Calendar.FormatDate` | src/utils/helpers.py:14-18 | f'{year}-MM-DD': str(year) followed by six characters, a dash, two digits that read back as the month, a dash and two digits that read back as the day, for every year (FormatDateRoundTrip reads the whole string back for four-digit years) |
| `Calendar.ParseIsoDate` | src/kpi_calculator.py:24-32 | how pandas reads the 'YYYY-MM-DD' bound strings in the comparisons: a date is produced only from text of that shape, and only when it is a real calendar date (FormatDateRoundTrip and NonFourDigitYearNotIso relate it to the rendering) |
| `Calendar.Midnight` | src/kpi_calculator.py:24-32 | the UTC instant a bound string stands for in the comparisons: 00:00 of its date, so a whole multiple of 86400 s from the epoch; EpochIsZero (1970-01-01 is 0) and NextDayNumber (each next day is 86400 s later) fix its value on every valid date |
| `Calendar.NatToStringRoundTrip` | src/utils/helpers.py:14 | the decimal digits str(n) prints read back as n |
| `SemesterHelpers.SpringSummerOverlap` | src/utils/helpers.py:13-16 | a date lies in both the Spring and the Summer range iff it is in June of that year |
| `SemesterHelpers.SummerWinterAdjacent` | src/utils/helpers.py:15-18 | no date lies in both Summer and Winter, and Winter starts on the day after Summer ends |
| `SemesterHelpers.MonthsBounds` | src/utils/helpers.py:23-34 | the bound dates of get_semester_months: succeeds iff the tag is Spring, Summer or Fall and datetime accepts the year; an unknown tag raises "Invalid semester" whatever the year, a known tag with a bad year raises "year N is out of range"; bounds are valid dates in the input year, the first on the 1st |
| `SemesterHelpers.MonthStarts` | src/utils/helpers.py:36 | pd.date_range with freq='MS': every entry is a first-of-month within the bounds, each entry is the month after the previous one, and every first-of-month within the bounds appears |
| `SemesterHelpers.SameYearMonthStarts` | src/utils/helpers.py:36 | from the 1st of a month to a later day of the same year the range has one entry per month, entry i being month first.month + i |
| `SemesterHelpers.MonthAbbreviation` | src/utils/helpers.py:36 | strftime('%b') of a month start: one of the twelve three-letter English abbreviations |
| `SemesterHelpers.GetSemesterMonths` | src/utils/helpers.py:23-37 | returns a list exactly for Spring, Summer and Fall within datetime's years, otherwise the ValueError MonthsBounds raises |
| `SemesterHelpers.MonthsConsecutive` | src/utils/helpers.py:25-36 | the list has end month − start month + 1 entries and entry i is the abbreviation of month start + i |
| `SemesterHelpers.SemesterMonthsTable` | src/utils/helpers.py:24-36 | Spring gives Jan..Jun, Summer Jun, Jul, Aug, Fall Sep..Dec |
| `SemesterHelpers.MonthsIgnoreYear` | src/utils/helpers.py:23-37 | for any two years datetime accepts, the result (list or error) is the same |
| `SemesterHelpers.TagTablesDisagree` | src/utils/helpers.py:13-34 | Winter has a date window but get_semester_months rejects it; Fall has a month list but get_semester_dates rejects it |
| `SemesterHelpers.SummerTablesDisagree` | src/utils/helpers.py:15-29 | Summer's month list ends with Aug while the Summer window ends in July |
| `Calendar.NextDayNumber` | src/kpi_calculator.py:18-19 | consecutive calendar days, across month and year ends, have consecutive day numbers and midnights 86400 s apart |
| `Calendar.DayNumberOrder` | src/kpi_calculator.py:24-32 | for valid dates, calendar order coincides with day-number order in both directions, and equal day numbers mean equal dates |
| `Calendar.MidnightOrder` | src/kpi_calculator.py:24-32 | a date precedes or equals another iff its midnight instant does |
| `KpiCalculator.SemesterWindow` | src/kpi_calculator.py:15 | the window resolves exactly for the three tags, with the same ValueError otherwise, and its start is strictly before its end |
| `KpiCalculator.SemesterWindowFromStrings` | src/kpi_calculator.py:15-32 | for four-digit years the window is the pair of midnights of the dates the two get_semester_dates strings read as |
| `KpiCalculator.WindowBoundsAreMidnights` | src/kpi_calculator.py:24-32 | the bounds are 00:00 UTC of the first and last dates, so the end bound is one day before the midnight that ends the last day |
| `KpiCalculator.SummerWinterInstantGap` | src/kpi_calculator.py:15-32 | Winter's start bound is a full day after Summer's end bound: the rest of July 31 belongs to neither window |
| `KpiCalculator.SpringSummerInstantOverlap` | src/kpi_calculator.py:15-32 | Summer's window starts after Spring's and ends after it; the instants in both run from Summer's start bound to Spring's end bound, 29 days later |
| `KpiCalculator.CreatedColumn` | src/kpi_calculator.py:18 | the new start_at column, pd.to_datetime(value.created_at, utc=True): one entry per row (see MasksReadDerivedColumns) |
| `KpiCalculator.UpdatedColumn` | src/kpi_calculator.py:19 | the new end_at column, pd.to_datetime(value.updated_at, utc=True): one entry per row (see MasksReadDerivedColumns) |
| `KpiCalculator.StateColumn` | src/kpi_calculator.py:23 | the value.workflow_state column the masks read: one entry per row |
| `KpiCalculator.ActiveRow` | src/kpi_calculator.py:22-26 | one row of the active mask with NaT comparisons false: it implies start_at is present and at most the end bound, and an end_at before the start bound rules it out (full condition in ActiveIff) |
| `KpiCalculator.InactiveRow` | src/kpi_calculator.py:29-34 | one row of the inactive mask: it implies start_at is present and at most the end bound, and excludes the active mask (full condition in InactiveIff) |
| `KpiCalculator.ActiveMask` | src/kpi_calculator.py:22-26 | the active boolean mask: one boolean per row, row i being the :22-26 conjunction over the written columns (see ActiveIff and MasksReadDerivedColumns) |
| `KpiCalculator.InactiveMask` | src/kpi_calculator.py:29-34 | the inactive boolean mask: one boolean per row, row i being the :29-34 conjunction over the written columns (see InactiveIff and MasksReadDerivedColumns) |
| `KpiCalculator.ActiveCount` | src/kpi_calculator.py:37 | active_courses.shape[0]: at most the number of rows, and 0 when no row is active (exact value in CountsAreCardinalities) |
| `KpiCalculator.InactiveCount` | src/kpi_calculator.py:38 | inactive_courses.shape[0]: at most the number of rows, and 0 when no row is inactive (exact value in CountsAreCardinalities) |
| `KpiCalculator.RatioValue` | src/kpi_calculator.py:42 | the real value of a finite ratio: times the denominator it gives the numerator, and it is non-negative; ratios compare as Python's floats do through it, not through == on Finite(num, den) |
| `KpiCalculator.CountTrue` | src/kpi_calculator.py:37-38 | the number of selected rows is at most the number of rows, and zero when the mask selects nothing |
| `KpiCalculator.RatioOf` | src/kpi_calculator.py:41-44 | the ratio is infinite iff nothing is inactive; otherwise its denominator is positive and its value times the inactive count is the active count |
| `KpiCalculator.AvailabilityFor` | src/kpi_calculator.py:13-46 | the result is an error exactly when the semester is not a window tag, and then it is the invalid-semester ValueError |
| `KpiCalculator.CourseFrame.constructor` | src/kpi_calculator.py:11 | the caller's course DataFrame as loaded: the given replicated columns, no start_at / end_at column yet, every column one entry per row |
| `KpiCalculator.CreateCourseAvailabilityAndActivityForSemester` | src/kpi_calculator.py:13-46 | on a well-formed frame (every column one entry per row) returns the counts and ratio over the replicated columns; an invalid semester leaves the frame as it was; on success start_at and end_at are set from created_at and updated_at, the frame stays well formed on both paths and the replicated columns are unchanged |
| `KpiCalculator.RepeatedCallsAgree` | src/kpi_calculator.py:13-46 | two calls on the same well-formed frame return the same result, independent of what start_at / end_at held before, and leave the same frame |
| `KpiCalculator.ActiveIff` | src/kpi_calculator.py:22-26 | active iff workflow_state is 'available', created_at is present and at most the end bound, and updated_at is missing or at least the start bound |
| `KpiCalculator.InactiveIff` | src/kpi_calculator.py:29-34 | inactive iff workflow_state is not 'available', created_at is present and at most the end bound, and updated_at is present and before the start bound; the notna() conjunct is redundant |
| `KpiCalculator.BucketsDisjoint` | src/kpi_calculator.py:22-34 | no course is both active and inactive |
| `KpiCalculator.MissingTimestamps` | src/kpi_calculator.py:24-34 | a missing created_at puts a course in neither bucket; a missing updated_at means it is never inactive |
| `KpiCalculator.BucketsNotExhaustive` | src/kpi_calculator.py:22-34 | an available course that ended before the window and a non-available course still open are counted nowhere |
| `KpiCalculator.MasksReadDerivedColumns` | src/kpi_calculator.py:18-34 | after the column write, each row of each mask over start_at / end_at is the row's own classification over created_at / updated_at |
| `KpiCalculator.CountsBounded` | src/kpi_calculator.py:22-38 | active_count + inactive_count is at most the number of rows |
| `KpiCalculator.CountsAreCardinalities` | src/kpi_calculator.py:22-38 | each count is the number of distinct row indices its predicate selects |
| `KpiCalculator.CountsAdditive` | src/kpi_calculator.py:22-38 | the counts of two stacked tables are the sums of their counts |
| `KpiCalculator.RatioCases` | src/kpi_calculator.py:36-46 | for every window tag the result succeeds, and its ratio is Infinity exactly when inactive_count is 0, and otherwise active_count over a positive inactive_count |
| `KpiCalculator.DayGranularActive` | src/kpi_calculator.py:15-26 | for timestamps at midnights, a course is active iff available, created on or before the last listed day and not last updated before the first |
| `KpiCalculator.LastDayCutoff` | src/kpi_calculator.py:15-26 | an available open course created at 00:00 on the last listed day is active, one created a second later is not |
| `KpiCalculator.WorkedExample` | src/kpi_calculator.py:13-46 | one available course created 2024-01-10 and updated 2024-05-01 gives (1, 0, +infinity) for Spring 2024 |
| `KpiCalculator.MixedExample` | src/kpi_calculator.py:13-46 | an active course, a deleted course that ended in 2023 and an available course with no created_at give (1, 1, 1/1) for Spring 2024 |

## Left out

- The module-level script of `src/kpi_calculator.py` (CSV loading at import time, the Bokeh bar chart, the dropdown callbacks): user interface and I/O.
- `pd.to_datetime` on the timestamp text: a course row carries the already parsed UTC instant, or None for a missing value; text that pandas cannot parse (which would raise) is not modelled.
- The three replicated columns `value.created_at`, `value.updated_at` and `value.workflow_state` are assumed present. A missing column raises KeyError (`src/kpi_calculator.py:18`, `:19`, `:23`), and an unparseable `value.updated_at` raises at `:19`; when the error comes at `:19` or `:23` the caller's frame has already been partly written (`start_at`, or both derived columns). These raising paths and their partial writes are not modelled.
- Timestamps are whole seconds; sub-second instants are not modelled.
- Columns of the course table other than the three the classifier reads are not modelled; the model's `courses` field stands for all replicated columns and is provably unchanged.
- pandas' reading of the bound strings is modelled (`SemesterWindowFromStrings`) for four-digit years only; for other years `str(year)` is not `YYYY-MM-DD` and what pandas makes of the text is not modelled.
- pandas' Timestamp range (years 1677 to 2262): `pd.date_range` raises outside it; whether the mask comparisons do depends on the pandas version; neither is modelled. Only `datetime`'s own year check (1..9999) is modelled, and years so large that `datetime` raises OverflowError are treated like other out-of-range years.
- `strftime('%b')` is taken in the C locale (English abbreviations); other locales are not modelled.
- Arguments of other Python types (a non-string semester, a non-integer year) are not modelled: the semester is a string and the year an integer.
- The ratio is exact; IEEE floating point rounding of `active_count / inactive_count` is not modelled.
