/**
 * The course availability classifier: given the course table and a semester,
 * it writes the derived timestamp columns into the caller's table, then counts
 * the courses active in the semester window, the courses that ended before it,
 * and the ratio of the two.
 */
module KpiCalculator {
  import opened Wrappers
  import opened Calendar
  import opened SemesterHelpers

  /**
   * The replicated columns of one course row that the classifier reads:
   * value.workflow_state, and value.created_at / value.updated_at as
   * pd.to_datetime(..., utc=True) reads them. None stands for NaN / NaT.
   */
  datatype Course = Course(workflowState: Option<string>, createdAt: Option<Instant>, updatedAt: Option<Instant>)

  /** The two bounds the masks compare against, as UTC instants. */
  datatype Window = Window(start: Instant, end: Instant)

  /**
   * Active / inactive ratio: an exact quotient, or +infinity when nothing is
   * inactive. Finite(num, den) is not reduced, so Finite(2, 2) != Finite(1, 1)
   * although Python's floats agree; compare finite ratios through RatioValue.
   */
  datatype Ratio = Finite(num: nat, den: nat) | Infinity

  /** The real number a finite ratio stands for, the exact value of Python's num / den. */
  function RatioValue(r: Ratio): (v: real)
    requires r.Finite? && r.den > 0
    ensures v * (r.den as real) == r.num as real
    ensures v >= 0.0
  {
    (r.num as real) / (r.den as real)
  }

  /** The triple (active_count, inactive_count, ratio_active_to_inactive). */
  datatype Availability = Availability(activeCount: nat, inactiveCount: nat, ratio: Ratio)

  // ---------------------------------------------------------------------------
  // The semester window

  /**
   * The bounds the masks use. Pandas reads the strings 'YYYY-MM-DD' in the
   * column's time zone (UTC), so each bound is 00:00 UTC of its date; the
   * upper bound is the start, not the end, of the last listed day.
   */
  function SemesterWindow(year: int, semester: string): (r: Result<Window, ValueError>)
    ensures r.Success? <==> IsWindowTag(semester)
    ensures r.Failure? ==> r.error == ValueError(INVALID_SEMESTER_DATES)
    ensures r.Success? ==> r.value.start < r.value.end
  {
    var (first, last) :- SemesterDateRange(year, semester);
    DayNumberOrder(first, last);
    Success(Window(Midnight(first), Midnight(last)))
  }

  /** For four-digit years the window is what the two strings of get_semester_dates read as. */
  lemma SemesterWindowFromStrings(year: int, semester: string)
    requires 1000 <= year <= 9999 && IsWindowTag(semester)
    ensures
      var (a, b) := GetSemesterDates(year, semester).value;
      ParseIsoDate(a).Some? && ParseIsoDate(b).Some?
      && SemesterWindow(year, semester)
         == Success(Window(Midnight(ParseIsoDate(a).value), Midnight(ParseIsoDate(b).value)))
  {
    SemesterDatesReadBack(year, semester);
  }

  /**
   * Both bounds are midnights of the window's dates, so the upper bound leaves
   * out all of the last listed day but its first instant.
   */
  lemma WindowBoundsAreMidnights(year: int, semester: string)
    requires IsWindowTag(semester)
    ensures
      var (first, last) := SemesterDateRange(year, semester).value;
      var w := SemesterWindow(year, semester).value;
      w.start == Midnight(first) && w.end == Midnight(last)
      && Midnight(NextDay(last)) == w.end + SECONDS_PER_DAY
  {
    var (_, last) := SemesterDateRange(year, semester).value;
    NextDayNumber(last);
  }

  /**
   * Summer's and Winter's date ranges are adjacent, but their instant windows
   * are not: the instants after 00:00 on the last day of Summer belong to neither.
   */
  lemma SummerWinterInstantGap(year: int)
    ensures
      var summer := SemesterWindow(year, "Summer").value;
      var winter := SemesterWindow(year, "Winter").value;
      winter.start == summer.end + SECONDS_PER_DAY
  {
    NextDayNumber(Date(year, 7, 31));
  }

  /** The Spring and Summer windows overlap from 00:00 on June 1 to 00:00 on June 30. */
  lemma SpringSummerInstantOverlap(year: int)
    ensures
      var spring := SemesterWindow(year, "Spring").value;
      var summer := SemesterWindow(year, "Summer").value;
      spring.start < summer.start && summer.start + 29 * SECONDS_PER_DAY == spring.end
      && spring.end < summer.end
  {
  }

  // ---------------------------------------------------------------------------
  // The masks

  /** Comparisons against NaT are false, as in pandas. */
  predicate AtMost(t: Option<Instant>, bound: Instant) { t.Some? && t.value <= bound }
  predicate AtLeast(t: Option<Instant>, bound: Instant) { t.Some? && t.value >= bound }
  predicate Before(t: Option<Instant>, bound: Instant) { t.Some? && t.value < bound }

  /** value.workflow_state == 'available'; a NaN state compares unequal. */
  predicate IsAvailable(state: Option<string>) { state == Some("available") }

  /** One row of the active mask, over the state and the derived start_at / end_at. */
  predicate ActiveRow(state: Option<string>, startAt: Option<Instant>, endAt: Option<Instant>, w: Window)
    ensures ActiveRow(state, startAt, endAt, w) ==> startAt.Some? && startAt.value <= w.end
    ensures endAt.Some? && endAt.value < w.start ==> !ActiveRow(state, startAt, endAt, w)
  {
    IsAvailable(state) && AtMost(startAt, w.end) && (AtLeast(endAt, w.start) || endAt.None?)
  }

  /** One row of the inactive mask. */
  predicate InactiveRow(state: Option<string>, startAt: Option<Instant>, endAt: Option<Instant>, w: Window)
    ensures InactiveRow(state, startAt, endAt, w) ==> startAt.Some? && startAt.value <= w.end
    ensures InactiveRow(state, startAt, endAt, w) ==> !ActiveRow(state, startAt, endAt, w)
  {
    !IsAvailable(state) && AtMost(startAt, w.end) && Before(endAt, w.start) && endAt.Some?
  }

  function StateColumn(courses: seq<Course>): (col: seq<Option<string>>)
    ensures |col| == |courses|
  {
    seq(|courses|, i requires 0 <= i < |courses| => courses[i].workflowState)
  }

  /** pd.to_datetime(courses_df['value.created_at'], utc=True), the new start_at column. */
  function CreatedColumn(courses: seq<Course>): (col: seq<Option<Instant>>)
    ensures |col| == |courses|
  {
    seq(|courses|, i requires 0 <= i < |courses| => courses[i].createdAt)
  }

  /** pd.to_datetime(courses_df['value.updated_at'], utc=True), the new end_at column. */
  function UpdatedColumn(courses: seq<Course>): (col: seq<Option<Instant>>)
    ensures |col| == |courses|
  {
    seq(|courses|, i requires 0 <= i < |courses| => courses[i].updatedAt)
  }

  function ActiveMask(states: seq<Option<string>>, starts: seq<Option<Instant>>, ends: seq<Option<Instant>>, w: Window): (m: seq<bool>)
    requires |starts| == |states| && |ends| == |states|
    ensures |m| == |states|
  {
    seq(|states|, i requires 0 <= i < |states| => ActiveRow(states[i], starts[i], ends[i], w))
  }

  function InactiveMask(states: seq<Option<string>>, starts: seq<Option<Instant>>, ends: seq<Option<Instant>>, w: Window): (m: seq<bool>)
    requires |starts| == |states| && |ends| == |states|
    ensures |m| == |states|
  {
    seq(|states|, i requires 0 <= i < |states| => InactiveRow(states[i], starts[i], ends[i], w))
  }

  /** The number of rows a boolean mask selects: shape[0] of the filtered frame. */
  function CountTrue(mask: seq<bool>): (n: nat)
    ensures n <= |mask|
    ensures n == 0 <== forall i :: 0 <= i < |mask| ==> !mask[i]
  {
    if mask == [] then 0 else (if mask[0] then 1 else 0) + CountTrue(mask[1..])
  }

  // ---------------------------------------------------------------------------
  // The classification, stated on the replicated columns

  /** A course is active in w: the active mask on its own created_at / updated_at. */
  predicate IsActive(c: Course, w: Window) {
    ActiveRow(c.workflowState, c.createdAt, c.updatedAt, w)
  }

  /** A course is inactive in w: the inactive mask on its own created_at / updated_at. */
  predicate IsInactive(c: Course, w: Window) {
    InactiveRow(c.workflowState, c.createdAt, c.updatedAt, w)
  }

  function ActiveCount(courses: seq<Course>, w: Window): (n: nat)
    ensures n <= |courses|
    ensures (forall i :: 0 <= i < |courses| ==> !IsActive(courses[i], w)) ==> n == 0
  {
    CountTrue(ActiveMask(StateColumn(courses), CreatedColumn(courses), UpdatedColumn(courses), w))
  }

  function InactiveCount(courses: seq<Course>, w: Window): (n: nat)
    ensures n <= |courses|
    ensures (forall i :: 0 <= i < |courses| ==> !IsInactive(courses[i], w)) ==> n == 0
  {
    CountTrue(InactiveMask(StateColumn(courses), CreatedColumn(courses), UpdatedColumn(courses), w))
  }

  /** active / inactive when something is inactive, else float('inf'). */
  function RatioOf(active: nat, inactive: nat): (r: Ratio)
    ensures r.Infinity? <==> inactive == 0
    ensures r.Finite? ==> r.den > 0 && RatioValue(r) * (inactive as real) == active as real
  {
    if inactive > 0 then Finite(active, inactive) else Infinity
  }

  /** What create_course_availability_and_activity_for_semester returns. */
  function AvailabilityFor(courses: seq<Course>, year: int, semester: string): (r: Result<Availability, ValueError>)
    ensures r.Failure? <==> !IsWindowTag(semester)
    ensures r.Failure? ==> r.error == ValueError(INVALID_SEMESTER_DATES)
  {
    var w :- SemesterWindow(year, semester);
    var active := ActiveCount(courses, w);
    var inactive := InactiveCount(courses, w);
    Success(Availability(active, inactive, RatioOf(active, inactive)))
  }

  // ---------------------------------------------------------------------------
  // The caller's DataFrame and the operation

  /** The caller's course DataFrame, which the operation updates in place. */
  class CourseFrame {
    /** The replicated columns, one entry per row. */
    var courses: seq<Course>
    /** The derived start_at and end_at columns; None while the frame has no such column. */
    var startAt: Option<seq<Option<Instant>>>
    var endAt: Option<seq<Option<Instant>>>

    /**
     * Every column present has one entry per row: the DataFrame's own shape
     * invariant. The operation keeps it, but its contract does not depend on it,
     * since it never reads the old derived columns and writes both in full.
     */
    ghost predicate Valid()
      reads this
    {
      (startAt.Some? ==> |startAt.value| == |courses|) && (endAt.Some? ==> |endAt.value| == |courses|)
    }

    constructor (courses: seq<Course>)
      ensures Valid()
      ensures this.courses == courses && startAt == None && endAt == None
    {
      this.courses := courses;
      startAt := None;
      endAt := None;
    }
  }

  /**
   * create_course_availability_and_activity_for_semester. The window is resolved
   * first, so an invalid semester raises before the frame is touched; otherwise
   * start_at and end_at are (re)written from the replicated columns and the
   * counts are taken over them. Nothing else in the frame changes.
   */
  method CreateCourseAvailabilityAndActivityForSemester(frame: CourseFrame, year: int, semester: string)
    returns (r: Result<Availability, ValueError>)
    requires frame.Valid()
    modifies frame`startAt, frame`endAt
    ensures frame.Valid()
    ensures r == AvailabilityFor(frame.courses, year, semester)
    ensures frame.courses == old(frame.courses)
    ensures r.Failure? ==> frame.startAt == old(frame.startAt) && frame.endAt == old(frame.endAt)
    ensures r.Success? ==>
              && frame.startAt == Some(CreatedColumn(frame.courses))
              && frame.endAt == Some(UpdatedColumn(frame.courses))
  {
    var w :- SemesterWindow(year, semester);
    frame.startAt := Some(CreatedColumn(frame.courses));
    frame.endAt := Some(UpdatedColumn(frame.courses));
    var states := StateColumn(frame.courses);
    var activeCount := CountTrue(ActiveMask(states, frame.startAt.value, frame.endAt.value, w));
    var inactiveCount := CountTrue(InactiveMask(states, frame.startAt.value, frame.endAt.value, w));
    var ratio := if inactiveCount > 0 then Finite(activeCount, inactiveCount) else Infinity;
    r := Success(Availability(activeCount, inactiveCount, ratio));
  }

  /** Calling twice on the same frame gives the same answer and leaves the same frame. */
  method RepeatedCallsAgree(frame: CourseFrame, year: int, semester: string)
    returns (r1: Result<Availability, ValueError>, r2: Result<Availability, ValueError>)
    requires frame.Valid()
    modifies frame`startAt, frame`endAt
    ensures frame.Valid()
    ensures r1 == r2 && r1 == AvailabilityFor(old(frame.courses), year, semester)
    ensures frame.courses == old(frame.courses)
    ensures r1.Success? ==>
              && frame.startAt == Some(CreatedColumn(frame.courses))
              && frame.endAt == Some(UpdatedColumn(frame.courses))
    ensures r1.Failure? ==> frame.startAt == old(frame.startAt) && frame.endAt == old(frame.endAt)
  {
    r1 := CreateCourseAvailabilityAndActivityForSemester(frame, year, semester);
    r2 := CreateCourseAvailabilityAndActivityForSemester(frame, year, semester);
  }

  // ---------------------------------------------------------------------------
  // Properties of the classification

  /** The active mask, stated on the course's own fields. */
  lemma ActiveIff(c: Course, w: Window)
    ensures IsActive(c, w) <==>
      c.workflowState == Some("available")
      && c.createdAt.Some? && c.createdAt.value <= w.end
      && (c.updatedAt.None? || c.updatedAt.value >= w.start)
  {
  }

  /** The inactive mask, stated on the course's own fields; the notna() test adds nothing. */
  lemma InactiveIff(c: Course, w: Window)
    ensures IsInactive(c, w) <==>
      c.workflowState != Some("available")
      && c.createdAt.Some? && c.createdAt.value <= w.end
      && c.updatedAt.Some? && c.updatedAt.value < w.start
    ensures IsInactive(c, w) <==> !IsAvailable(c.workflowState) && AtMost(c.createdAt, w.end) && Before(c.updatedAt, w.start)
  {
  }

  /** No course is in both buckets. */
  lemma BucketsDisjoint(c: Course, w: Window)
    ensures !(IsActive(c, w) && IsInactive(c, w))
  {
  }

  /** A missing created_at keeps a course out of both buckets; a missing updated_at keeps it from being inactive. */
  lemma MissingTimestamps(c: Course, w: Window)
    ensures c.createdAt.None? ==> !IsActive(c, w) && !IsInactive(c, w)
    ensures c.updatedAt.None? ==> !IsInactive(c, w)
  {
  }

  /** The buckets do not cover every row: an available course that ended before the window, and a non-available one still open, are in neither. */
  lemma BucketsNotExhaustive(c: Course, w: Window)
    requires AtMost(c.createdAt, w.end)
    ensures IsAvailable(c.workflowState) && Before(c.updatedAt, w.start) ==> !IsActive(c, w) && !IsInactive(c, w)
    ensures !IsAvailable(c.workflowState) && !Before(c.updatedAt, w.start) ==> !IsActive(c, w) && !IsInactive(c, w)
  {
  }

  /** After the column write, the masks over start_at / end_at are the masks over the replicated columns. */
  lemma MasksReadDerivedColumns(courses: seq<Course>, w: Window, i: int)
    requires 0 <= i < |courses|
    ensures ActiveMask(StateColumn(courses), CreatedColumn(courses), UpdatedColumn(courses), w)[i] == IsActive(courses[i], w)
    ensures InactiveMask(StateColumn(courses), CreatedColumn(courses), UpdatedColumn(courses), w)[i] == IsInactive(courses[i], w)
  {
  }

  lemma {:induction false} CountTrueDisjoint(a: seq<bool>, b: seq<bool>)
    requires |a| == |b|
    requires forall i :: 0 <= i < |a| ==> !(a[i] && b[i])
    ensures CountTrue(a) + CountTrue(b) <= |a|
  {
    if a != [] {
      CountTrueDisjoint(a[1..], b[1..]);
    }
  }

  /** active_count + inactive_count never exceeds the number of rows. */
  lemma CountsBounded(courses: seq<Course>, w: Window)
    ensures ActiveCount(courses, w) + InactiveCount(courses, w) <= |courses|
  {
    var states, starts, ends := StateColumn(courses), CreatedColumn(courses), UpdatedColumn(courses);
    CountTrueDisjoint(ActiveMask(states, starts, ends, w), InactiveMask(states, starts, ends, w));
  }

  lemma {:induction false} CountTrueCardinality(mask: seq<bool>)
    ensures CountTrue(mask) == |set i | 0 <= i < |mask| && mask[i]|
  {
    if mask != [] {
      var n := |mask| - 1;
      var init := mask[..n];
      CountTrueCardinality(init);
      assert mask == init + [mask[n]];
      CountTrueAppend(init, [mask[n]]);
      assert [mask[n]][1..] == [];
      var before := set i | 0 <= i < |init| && init[i];
      var all := set i | 0 <= i < |mask| && mask[i];
      if mask[n] {
        assert all == before + {n};
      } else {
        assert all == before;
      }
    }
  }

  /** The counts are the numbers of distinct rows each predicate selects. */
  lemma CountsAreCardinalities(courses: seq<Course>, w: Window)
    ensures ActiveCount(courses, w) == |set i | 0 <= i < |courses| && IsActive(courses[i], w)|
    ensures InactiveCount(courses, w) == |set i | 0 <= i < |courses| && IsInactive(courses[i], w)|
  {
    var states, starts, ends := StateColumn(courses), CreatedColumn(courses), UpdatedColumn(courses);
    var am, im := ActiveMask(states, starts, ends, w), InactiveMask(states, starts, ends, w);
    CountTrueCardinality(am);
    CountTrueCardinality(im);
    assert (set i | 0 <= i < |am| && am[i]) == set i | 0 <= i < |courses| && IsActive(courses[i], w);
    assert (set i | 0 <= i < |im| && im[i]) == set i | 0 <= i < |courses| && IsInactive(courses[i], w);
  }

  lemma {:induction false} CountTrueAppend(a: seq<bool>, b: seq<bool>)
    ensures CountTrue(a + b) == CountTrue(a) + CountTrue(b)
  {
    if a != [] {
      assert (a + b)[1..] == a[1..] + b;
      CountTrueAppend(a[1..], b);
    } else {
      assert a + b == b;
    }
  }

  /** Rows are counted independently: the counts of two stacked tables add up. */
  lemma CountsAdditive(a: seq<Course>, b: seq<Course>, w: Window)
    ensures ActiveCount(a + b, w) == ActiveCount(a, w) + ActiveCount(b, w)
    ensures InactiveCount(a + b, w) == InactiveCount(a, w) + InactiveCount(b, w)
  {
    var sa, ca, ua := StateColumn(a), CreatedColumn(a), UpdatedColumn(a);
    var sb, cb, ub := StateColumn(b), CreatedColumn(b), UpdatedColumn(b);
    var sab, cab, uab := StateColumn(a + b), CreatedColumn(a + b), UpdatedColumn(a + b);
    assert ActiveMask(sab, cab, uab, w) == ActiveMask(sa, ca, ua, w) + ActiveMask(sb, cb, ub, w);
    assert InactiveMask(sab, cab, uab, w) == InactiveMask(sa, ca, ua, w) + InactiveMask(sb, cb, ub, w);
    CountTrueAppend(ActiveMask(sa, ca, ua, w), ActiveMask(sb, cb, ub, w));
    CountTrueAppend(InactiveMask(sa, ca, ua, w), InactiveMask(sb, cb, ub, w));
  }

  /** The ratio is infinite exactly when no course is inactive, and never divides by zero. */
  lemma RatioCases(courses: seq<Course>, year: int, semester: string)
    requires IsWindowTag(semester)
    ensures var a := AvailabilityFor(courses, year, semester).value;
      (a.ratio.Infinity? <==> a.inactiveCount == 0)
      && (a.ratio.Finite? ==> a.ratio == Finite(a.activeCount, a.inactiveCount) && a.ratio.den > 0)
  {
  }

  /**
   * For timestamps that fall on midnights, the window is inclusive at both ends
   * in calendar terms: an available course is active iff it was created on or
   * before the last listed day and not last updated before the first one.
   */
  lemma DayGranularActive(year: int, semester: string, state: Option<string>, created: Date, updated: Option<Date>)
    requires IsWindowTag(semester) && ValidDate(created) && (updated.Some? ==> ValidDate(updated.value))
    ensures
      var (first, last) := SemesterDateRange(year, semester).value;
      var w := SemesterWindow(year, semester).value;
      var c := Course(state, Some(Midnight(created)), if updated.Some? then Some(Midnight(updated.value)) else None);
      IsActive(c, w) <==>
        IsAvailable(state) && DateLe(created, last) && (updated.None? || DateLe(first, updated.value))
  {
    var (first, last) := SemesterDateRange(year, semester).value;
    MidnightOrder(created, last);
    if updated.Some? {
      MidnightOrder(first, updated.value);
    }
  }

  /** A course created one second after 00:00 on the last listed day is not active, at 00:00 it is. */
  lemma LastDayCutoff(year: int, semester: string)
    requires IsWindowTag(semester)
    ensures
      var (_, last) := SemesterDateRange(year, semester).value;
      var w := SemesterWindow(year, semester).value;
      IsActive(Course(Some("available"), Some(Midnight(last)), None), w)
      && !IsActive(Course(Some("available"), Some(Midnight(last) + 1), None), w)
  {
  }

  /** One available course created 2024-01-10 and updated 2024-05-01, in Spring 2024: (1, 0, +infinity). */
  lemma WorkedExample()
    ensures AvailabilityFor([Course(Some("available"), Some(Midnight(Date(2024, 1, 10))), Some(Midnight(Date(2024, 5, 1))))], 2024, "Spring")
            == Success(Availability(1, 0, Infinity))
  {
    var courses := [Course(Some("available"), Some(Midnight(Date(2024, 1, 10))), Some(Midnight(Date(2024, 5, 1))))];
    var w := SemesterWindow(2024, "Spring").value;
    MasksReadDerivedColumns(courses, w, 0);
    var am := ActiveMask(StateColumn(courses), CreatedColumn(courses), UpdatedColumn(courses), w);
    var im := InactiveMask(StateColumn(courses), CreatedColumn(courses), UpdatedColumn(courses), w);
    assert am == [true];
    assert im == [false];
  }

  /** One of each kind in Spring 2024: an active course, a deleted one that ended in 2023, and one in neither bucket. */
  lemma MixedExample()
    ensures
      var active := Course(Some("available"), Some(Midnight(Date(2024, 2, 1))), None);
      var ended := Course(Some("deleted"), Some(Midnight(Date(2023, 1, 5))), Some(Midnight(Date(2023, 11, 30))));
      var neither := Course(Some("available"), None, None);
      AvailabilityFor([active, ended, neither], 2024, "Spring") == Success(Availability(1, 1, Finite(1, 1)))
  {
    var active := Course(Some("available"), Some(Midnight(Date(2024, 2, 1))), None);
    var ended := Course(Some("deleted"), Some(Midnight(Date(2023, 1, 5))), Some(Midnight(Date(2023, 11, 30))));
    var neither := Course(Some("available"), None, None);
    var courses := [active, ended, neither];
    var w := SemesterWindow(2024, "Spring").value;
    var am := ActiveMask(StateColumn(courses), CreatedColumn(courses), UpdatedColumn(courses), w);
    var im := InactiveMask(StateColumn(courses), CreatedColumn(courses), UpdatedColumn(courses), w);
    assert am == [true, false, false];
    assert im == [false, true, false];
    assert CountTrue(am) == 1 by { assert am[1..] == [false, false]; assert am[1..][1..] == [false]; }
    assert CountTrue(im) == 1 by { assert im[1..] == [true, false]; assert im[1..][1..] == [false]; }
  }
}
