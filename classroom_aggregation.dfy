/** The "all courses" view of the teacher dashboard: the analytics of every
    course the teacher teaches are computed one by one, courses whose
    analytics fail are skipped, and the rest are combined into one record
    (summed totals, merged engagement series, concatenated assignment rows,
    one student row per student). */
module ClassroomAggregation {
  import opened Common
  import opened Snapshot
  import opened AnalyticsTypes
  import opened StableSort
  import opened ClassroomAnalytics

  // =====================================================================
  // Summary
  // =====================================================================

  /** Field-wise sums of the course summaries; nothing is de-duplicated. */
  function SumSummaries(cas: seq<CourseAnalytics>): AnalyticsSummary
  {
    if |cas| == 0 then AnalyticsSummary(0, 0, 0, 0, 0)
    else
      var a := SumSummaries(cas[..|cas| - 1]);
      var b := cas[|cas| - 1].summary;
      AnalyticsSummary(a.totalStudents + b.totalStudents, a.totalAssignments + b.totalAssignments,
                       a.totalSubmissions + b.totalSubmissions, a.lateSubmissions + b.lateSubmissions,
                       a.missingSubmissions + b.missingSubmissions)
  }

  method SumSummary(cas: seq<CourseAnalytics>) returns (summary: AnalyticsSummary)
    ensures summary == SumSummaries(cas)
  {
    summary := AnalyticsSummary(0, 0, 0, 0, 0);
    for c := 0 to |cas|
      invariant summary == SumSummaries(cas[..c])
    {
      assert cas[..c + 1][..c] == cas[..c];
      var s := cas[c].summary;
      summary := summary.(totalStudents := summary.totalStudents + s.totalStudents);
      summary := summary.(totalAssignments := summary.totalAssignments + s.totalAssignments);
      summary := summary.(totalSubmissions := summary.totalSubmissions + s.totalSubmissions);
      summary := summary.(lateSubmissions := summary.lateSubmissions + s.lateSubmissions);
      summary := summary.(missingSubmissions := summary.missingSubmissions + s.missingSubmissions);
    }
    assert cas[..|cas|] == cas;
  }

  /** Summing keeps "late never exceeds submitted" when every course keeps it. */
  lemma {:induction false} SumSummariesLateBound(cas: seq<CourseAnalytics>)
    requires forall c :: 0 <= c < |cas| ==> cas[c].summary.lateSubmissions <= cas[c].summary.totalSubmissions
    ensures SumSummaries(cas).lateSubmissions <= SumSummaries(cas).totalSubmissions
  {
    if |cas| > 0 {
      SumSummariesLateBound(cas[..|cas| - 1]);
    }
  }

  // =====================================================================
  // Engagement
  // =====================================================================

  /** The engagement points of every course, course by course. */
  function AllPoints(cas: seq<CourseAnalytics>): seq<EngagementPoint>
  {
    if |cas| == 0 then [] else AllPoints(cas[..|cas| - 1]) + cas[|cas| - 1].engagementData
  }

  function DatesIn(points: seq<EngagementPoint>): set<int>
  {
    set p | p in points :: p.date
  }

  /** The submissions of every point dated `d`. */
  function PointsTotal(points: seq<EngagementPoint>, d: int): nat
  {
    if |points| == 0 then 0
    else
      var p := points[|points| - 1];
      PointsTotal(points[..|points| - 1], d) + (if p.date == d then p.submissions else 0)
  }

  function PointDate(p: EngagementPoint): int
  {
    p.date
  }

  /** `merged` has one point per date that occurs in `points`, in strictly
      increasing date order, holding the sum of the submissions of the
      points with that date. */
  ghost predicate IsMergedSeries(merged: seq<EngagementPoint>, points: seq<EngagementPoint>)
  {
    && (forall i, j :: 0 <= i < j < |merged| ==> merged[i].date < merged[j].date)
    && DatesIn(merged) == DatesIn(points)
    && (forall i :: 0 <= i < |merged| ==> merged[i].submissions == PointsTotal(points, merged[i].date))
  }

  /** The record from date to merged point, with its keys in insertion
      order, after the points `points`. */
  ghost predicate MergeState(m: map<int, nat>, order: seq<int>, points: seq<EngagementPoint>)
  {
    && (forall i, j :: 0 <= i < j < |order| ==> order[i] != order[j])
    && (forall d :: d in m <==> d in order)
    && (forall k :: 0 <= k < |order| ==> order[k] in m)
    && m.Keys == DatesIn(points)
    && (forall d :: d in m ==> m[d] == PointsTotal(points, d))
  }

  lemma PointsSnoc(points: seq<EngagementPoint>, p: EngagementPoint)
    ensures DatesIn(points + [p]) == DatesIn(points) + {p.date}
    ensures forall d :: PointsTotal(points + [p], d) == PointsTotal(points, d) + (if p.date == d then p.submissions else 0)
  {
    assert (points + [p])[..|points|] == points;
  }

  lemma AllPointsStep(cas: seq<CourseAnalytics>, c: nat)
    requires c < |cas|
    ensures AllPoints(cas[..c + 1]) == AllPoints(cas[..c]) + cas[c].engagementData
  {
    assert cas[..c + 1][..c] == cas[..c];
  }

  lemma MergeStepNew(m: map<int, nat>, order: seq<int>, points: seq<EngagementPoint>, p: EngagementPoint)
    requires MergeState(m, order, points)
    requires p.date !in m
    ensures MergeState(m[p.date := p.submissions], order + [p.date], points + [p])
  {
    PointsSnoc(points, p);
    assert PointsTotal(points, p.date) == 0 by {
      PointsTotalAbsent(points, p.date);
    }
  }

  lemma MergeStepOld(m: map<int, nat>, order: seq<int>, points: seq<EngagementPoint>, p: EngagementPoint)
    requires MergeState(m, order, points)
    requires p.date in m
    ensures MergeState(m[p.date := m[p.date] + p.submissions], order, points + [p])
  {
    PointsSnoc(points, p);
  }

  lemma {:induction false} PointsTotalAbsent(points: seq<EngagementPoint>, d: int)
    requires d !in DatesIn(points)
    ensures PointsTotal(points, d) == 0
  {
    if |points| > 0 {
      var init := points[..|points| - 1];
      assert points[|points| - 1] in points;
      assert forall p :: p in init ==> p in points;
      PointsTotalAbsent(init, d);
    }
  }

  lemma SortedDatesIncreasing(values: seq<EngagementPoint>)
    requires forall i, j :: 0 <= i < j < |values| ==> values[i].date != values[j].date
    ensures forall i, j :: 0 <= i < j < |SortBy(values, PointDate)| ==>
              SortBy(values, PointDate)[i].date < SortBy(values, PointDate)[j].date
  {
    assert DistinctKeys(values, PointDate) by {
      forall i, j | 0 <= i < j < |values|
        ensures PointDate(values[i]) != PointDate(values[j])
      {
      }
    }
    SortByDistinctKeys(values, PointDate);
    var r := SortBy(values, PointDate);
    forall i, j | 0 <= i < j < |r|
      ensures r[i].date < r[j].date
    {
      assert PointDate(r[i]) < PointDate(r[j]);
    }
  }

  /** The points read off the record, one per key in insertion order, have
      distinct dates, the dates of `points`, and the totals of `points`. */
  lemma MergedValues(values: seq<EngagementPoint>, m: map<int, nat>, order: seq<int>, points: seq<EngagementPoint>)
    requires MergeState(m, order, points)
    requires |values| == |order|
    requires forall k :: 0 <= k < |order| ==> values[k] == EngagementPoint(order[k], m[order[k]])
    ensures DatesIn(values) == DatesIn(points)
    ensures forall i, j :: 0 <= i < j < |values| ==> values[i].date != values[j].date
    ensures forall k :: 0 <= k < |values| ==> values[k].submissions == PointsTotal(points, values[k].date)
  {
    forall d | d in m
      ensures d in DatesIn(values)
    {
      var k :| 0 <= k < |order| && order[k] == d;
      assert values[k] in values;
    }
    forall d | d in DatesIn(values)
      ensures d in m
    {
      var p :| p in values && p.date == d;
      var k :| 0 <= k < |values| && values[k] == p;
    }
  }

  /** Sorting such points by date gives the merged series. */
  lemma SortedMerge(values: seq<EngagementPoint>, points: seq<EngagementPoint>)
    requires DatesIn(values) == DatesIn(points)
    requires forall i, j :: 0 <= i < j < |values| ==> values[i].date != values[j].date
    requires forall k :: 0 <= k < |values| ==> values[k].submissions == PointsTotal(points, values[k].date)
    ensures IsMergedSeries(SortBy(values, PointDate), points)
  {
    var r := SortBy(values, PointDate);
    SortedDatesIncreasing(values);
    SortByMembers(values, PointDate);
    assert DatesIn(r) == DatesIn(values);
    forall i | 0 <= i < |r|
      ensures r[i].submissions == PointsTotal(points, r[i].date)
    {
      assert r[i] in values;
      var k :| 0 <= k < |values| && values[k] == r[i];
    }
  }

  /** Merges the engagement series of the courses: the first point of a date
      is copied, later points of that date add their submissions; the points
      are then sorted by date. */
  method MergeEngagement(cas: seq<CourseAnalytics>) returns (engagementData: seq<EngagementPoint>)
    ensures IsMergedSeries(engagementData, AllPoints(cas))
  {
    var engagementMap: map<int, nat> := map[];
    var order: seq<int> := [];
    for c := 0 to |cas|
      invariant MergeState(engagementMap, order, AllPoints(cas[..c]))
    {
      var data := cas[c].engagementData;
      assert AllPoints(cas[..c]) + data[..0] == AllPoints(cas[..c]);
      for j := 0 to |data|
        invariant MergeState(engagementMap, order, AllPoints(cas[..c]) + data[..j])
      {
        var point := data[j];
        assert AllPoints(cas[..c]) + data[..j + 1] == AllPoints(cas[..c]) + data[..j] + [point];
        if point.date !in engagementMap {
          MergeStepNew(engagementMap, order, AllPoints(cas[..c]) + data[..j], point);
          engagementMap := engagementMap[point.date := point.submissions];
          order := order + [point.date];
        } else {
          MergeStepOld(engagementMap, order, AllPoints(cas[..c]) + data[..j], point);
          engagementMap := engagementMap[point.date := engagementMap[point.date] + point.submissions];
        }
      }
      assert data[..|data|] == data;
      AllPointsStep(cas, c);
    }
    assert cas[..|cas|] == cas;
    var values: seq<EngagementPoint> := [];
    for i := 0 to |order|
      invariant |values| == i
      invariant forall k :: 0 <= k < i ==> values[k] == EngagementPoint(order[k], engagementMap[order[k]])
    {
      values := values + [EngagementPoint(order[i], engagementMap[order[i]])];
    }
    engagementData := SortBy(values, PointDate);
    MergedValues(values, engagementMap, order, AllPoints(cas));
    SortedMerge(values, AllPoints(cas));
  }

  // =====================================================================
  // Assignment rows
  // =====================================================================

  function AllAssignmentStats(cas: seq<CourseAnalytics>): seq<AssignmentAnalytics>
  {
    if |cas| == 0 then [] else AllAssignmentStats(cas[..|cas| - 1]) + cas[|cas| - 1].assignmentStats
  }

  method ConcatAssignmentStats(cas: seq<CourseAnalytics>) returns (assignmentStats: seq<AssignmentAnalytics>)
    ensures assignmentStats == AllAssignmentStats(cas)
  {
    assignmentStats := [];
    for c := 0 to |cas|
      invariant assignmentStats == AllAssignmentStats(cas[..c])
    {
      assert cas[..c + 1][..c] == cas[..c];
      assignmentStats := assignmentStats + cas[c].assignmentStats;
    }
    assert cas[..|cas|] == cas;
  }

  // =====================================================================
  // Student rows
  // =====================================================================

  function AllStudentRows(cas: seq<CourseAnalytics>): seq<StudentAnalytics>
  {
    if |cas| == 0 then [] else AllStudentRows(cas[..|cas| - 1]) + cas[|cas| - 1].studentProgress
  }

  function UserIds(rows: seq<StudentAnalytics>): set<string>
  {
    set r | r in rows :: r.userId
  }

  /** The first row of `rows` whose user is `userId`. */
  function FirstRow(rows: seq<StudentAnalytics>, userId: string): (r: Option<StudentAnalytics>)
    ensures r.None? <==> userId !in UserIds(rows)
    ensures r.Some? ==> r.value.userId == userId
    ensures r.Some? ==> exists k :: 0 <= k < |rows| && rows[k] == r.value && forall m :: 0 <= m < k ==> rows[m].userId != userId
  {
    if |rows| == 0 then None
    else
      var init := rows[..|rows| - 1];
      var f := FirstRow(init, userId);
      assert rows == init + [rows[|rows| - 1]];
      if f.Some? then
        var k :| 0 <= k < |init| && init[k] == f.value && forall m :: 0 <= m < k ==> init[m].userId != userId;
        assert rows[k] == init[k];
        f
      else if rows[|rows| - 1].userId == userId then
        assert forall m :: 0 <= m < |init| ==> init[m] in init;
        Some(rows[|rows| - 1])
      else None
  }

  /** The rows kept by the student record: the first row of every user, in
      the order the users first appear. */
  function FirstPerUser(rows: seq<StudentAnalytics>): seq<StudentAnalytics>
  {
    if |rows| == 0 then []
    else
      var kept := FirstPerUser(rows[..|rows| - 1]);
      var r := rows[|rows| - 1];
      if r.userId in UserIds(kept) then kept else kept + [r]
  }

  /** One row per user: every user of the input has a row, no user has two,
      and each kept row is that user's first row; so there are never more
      rows than in the input. */
  lemma {:induction false} FirstPerUserFacts(rows: seq<StudentAnalytics>)
    ensures var kept := FirstPerUser(rows);
            && (forall i, j :: 0 <= i < j < |kept| ==> kept[i].userId != kept[j].userId)
            && UserIds(kept) == UserIds(rows)
            && (forall i :: 0 <= i < |kept| ==> FirstRow(rows, kept[i].userId) == Some(kept[i]))
            && |kept| <= |rows|
  {
    if |rows| > 0 {
      var init, r := rows[..|rows| - 1], rows[|rows| - 1];
      var prev := FirstPerUser(init);
      FirstPerUserFacts(init);
      assert rows == init + [r];
      assert UserIds(rows) == UserIds(init) + {r.userId};
      forall i | 0 <= i < |prev|
        ensures FirstRow(rows, prev[i].userId) == Some(prev[i])
      {
        assert FirstRow(init, prev[i].userId) == Some(prev[i]);
      }
      if r.userId !in UserIds(prev) {
        var kept := prev + [r];
        assert UserIds(kept) == UserIds(prev) + {r.userId};
        forall i | 0 <= i < |prev|
          ensures prev[i].userId != r.userId
        {
          assert prev[i] in prev;
        }
        assert FirstRow(init, r.userId).None?;
      }
    }
  }

  /** The student record `m` with its keys in insertion order mirrors `kept`. */
  ghost predicate StudentState(m: map<string, StudentAnalytics>, ids: seq<string>, kept: seq<StudentAnalytics>)
  {
    && |ids| == |kept|
    && (forall k :: 0 <= k < |ids| ==> ids[k] == kept[k].userId && ids[k] in m && m[ids[k]] == kept[k])
    && m.Keys == UserIds(kept)
  }

  lemma FirstPerUserSnoc(rows: seq<StudentAnalytics>, r: StudentAnalytics)
    ensures FirstPerUser(rows + [r]) ==
              if r.userId in UserIds(FirstPerUser(rows)) then FirstPerUser(rows) else FirstPerUser(rows) + [r]
  {
    assert (rows + [r])[..|rows|] == rows;
  }

  lemma AllStudentRowsStep(cas: seq<CourseAnalytics>, c: nat)
    requires c < |cas|
    ensures AllStudentRows(cas[..c + 1]) == AllStudentRows(cas[..c]) + cas[c].studentProgress
  {
    assert cas[..c + 1][..c] == cas[..c];
  }

  lemma UserIdsSnoc(rows: seq<StudentAnalytics>, r: StudentAnalytics)
    ensures UserIds(rows + [r]) == UserIds(rows) + {r.userId}
  {
    assert r in rows + [r];
    forall x | x in rows
      ensures x in rows + [r]
    {
    }
  }

  lemma StudentStepNew(m: map<string, StudentAnalytics>, ids: seq<string>, rows: seq<StudentAnalytics>, r: StudentAnalytics)
    requires StudentState(m, ids, FirstPerUser(rows))
    requires r.userId !in m
    ensures StudentState(m[r.userId := r], ids + [r.userId], FirstPerUser(rows + [r]))
  {
    var kept := FirstPerUser(rows);
    FirstPerUserSnoc(rows, r);
    UserIdsSnoc(kept, r);
    var m', ids', kept' := m[r.userId := r], ids + [r.userId], kept + [r];
    assert m'.Keys == m.Keys + {r.userId};
    forall k | 0 <= k < |ids'|
      ensures ids'[k] == kept'[k].userId && ids'[k] in m' && m'[ids'[k]] == kept'[k]
    {
      if k < |ids| {
        assert ids'[k] == ids[k] && kept'[k] == kept[k];
        assert ids[k] in m;
      }
    }
  }

  lemma StudentStepOld(m: map<string, StudentAnalytics>, ids: seq<string>, rows: seq<StudentAnalytics>, r: StudentAnalytics)
    requires StudentState(m, ids, FirstPerUser(rows))
    requires r.userId in m
    ensures StudentState(m, ids, FirstPerUser(rows + [r]))
  {
    FirstPerUserSnoc(rows, r);
  }

  /** Adds one course's student rows to the student record. */
  method RecordRows(studentMap: map<string, StudentAnalytics>, ids: seq<string>, ghost before: seq<StudentAnalytics>,
                    rows: seq<StudentAnalytics>)
    returns (studentMap': map<string, StudentAnalytics>, ids': seq<string>)
    requires StudentState(studentMap, ids, FirstPerUser(before))
    ensures StudentState(studentMap', ids', FirstPerUser(before + rows))
  {
    studentMap', ids' := studentMap, ids;
    assert before + rows[..0] == before;
    for j := 0 to |rows|
      invariant StudentState(studentMap', ids', FirstPerUser(before + rows[..j]))
    {
      var student := rows[j];
      assert before + rows[..j + 1] == before + rows[..j] + [student];
      if student.userId !in studentMap' {
        StudentStepNew(studentMap', ids', before + rows[..j], student);
        studentMap' := studentMap'[student.userId := student];
        ids' := ids' + [student.userId];
      } else {
        StudentStepOld(studentMap', ids', before + rows[..j], student);
      }
    }
    assert rows[..|rows|] == rows;
  }

  /** Keeps the first row of every student across the courses. */
  method UniqueStudents(cas: seq<CourseAnalytics>) returns (studentProgress: seq<StudentAnalytics>)
    ensures studentProgress == FirstPerUser(AllStudentRows(cas))
  {
    var studentMap: map<string, StudentAnalytics> := map[];
    var ids: seq<string> := [];
    for c := 0 to |cas|
      invariant StudentState(studentMap, ids, FirstPerUser(AllStudentRows(cas[..c])))
    {
      studentMap, ids := RecordRows(studentMap, ids, AllStudentRows(cas[..c]), cas[c].studentProgress);
      AllStudentRowsStep(cas, c);
    }
    assert cas[..|cas|] == cas;
    ghost var kept := FirstPerUser(AllStudentRows(cas));
    studentProgress := [];
    for i := 0 to |ids|
      invariant studentProgress == kept[..i]
    {
      studentProgress := studentProgress + [studentMap[ids[i]]];
      assert kept[..i + 1] == kept[..i] + [kept[i]];
    }
    assert kept[..|ids|] == kept;
  }

  // =====================================================================
  // aggregateCourseAnalytics and getAggregatedAnalytics
  // =====================================================================

  /** What the combined record is made of. */
  ghost predicate IsAggregateOf(agg: CourseAnalytics, cas: seq<CourseAnalytics>)
  {
    && agg.courseId == "all"
    && agg.courseName == "All Courses"
    && agg.summary == SumSummaries(cas)
    && IsMergedSeries(agg.engagementData, AllPoints(cas))
    && agg.assignmentStats == AllAssignmentStats(cas)
    && agg.studentProgress == FirstPerUser(AllStudentRows(cas))
  }

  method AggregateCourseAnalytics(cas: seq<CourseAnalytics>) returns (agg: CourseAnalytics)
    ensures IsAggregateOf(agg, cas)
  {
    var summary := SumSummary(cas);
    var engagementData := MergeEngagement(cas);
    var assignmentStats := ConcatAssignmentStats(cas);
    var studentProgress := UniqueStudents(cas);
    agg := CourseAnalytics("all", "All Courses", summary, engagementData, assignmentStats, studentProgress);
  }

  lemma {:induction false} AllAssignmentStatsLength(cas: seq<CourseAnalytics>)
    requires forall c :: 0 <= c < |cas| ==> |cas[c].assignmentStats| == cas[c].summary.totalAssignments
    ensures |AllAssignmentStats(cas)| == SumSummaries(cas).totalAssignments
  {
    if |cas| > 0 {
      AllAssignmentStatsLength(cas[..|cas| - 1]);
    }
  }

  lemma {:induction false} AllStudentRowsLength(cas: seq<CourseAnalytics>)
    requires forall c :: 0 <= c < |cas| ==> |cas[c].studentProgress| == cas[c].summary.totalStudents
    ensures |AllStudentRows(cas)| == SumSummaries(cas).totalStudents
  {
    if |cas| > 0 {
      AllStudentRowsLength(cas[..|cas| - 1]);
    }
  }

  /** When every course record is consistent (one assignment row per piece
      of coursework, one student row per student), the combined record has
      one assignment row per summed assignment, while its student count
      counts a student once per course and so never falls below the number
      of de-duplicated student rows. */
  lemma AggregateCounts(agg: CourseAnalytics, cas: seq<CourseAnalytics>)
    requires IsAggregateOf(agg, cas)
    requires forall c :: 0 <= c < |cas| ==> |cas[c].assignmentStats| == cas[c].summary.totalAssignments
    requires forall c :: 0 <= c < |cas| ==> |cas[c].studentProgress| == cas[c].summary.totalStudents
    ensures |agg.assignmentStats| == agg.summary.totalAssignments
    ensures |agg.studentProgress| <= agg.summary.totalStudents
  {
    AllAssignmentStatsLength(cas);
    AllStudentRowsLength(cas);
    FirstPerUserFacts(AllStudentRows(cas));
  }

  /** Two students in two courses with the same user make one student row
      but count twice in the summed student total. */
  lemma SharedStudentCountedTwice(a: CourseAnalytics, b: CourseAnalytics, row: StudentAnalytics)
    requires a.studentProgress == [row] && b.studentProgress == [row]
    requires a.summary.totalStudents == 1 && b.summary.totalStudents == 1
    ensures |FirstPerUser(AllStudentRows([a, b]))| == 1
    ensures SumSummaries([a, b]).totalStudents == 2
  {
    assert [a, b][..1] == [a];
    assert [a][..0] == [];
    assert AllStudentRows([a]) == [row];
    assert SumSummaries([a]).totalStudents == 1;
    assert AllStudentRows([a, b]) == [row, row];
    assert [row, row][..1] == [row];
    assert [row][..0] == [];
    assert FirstPerUser([row]) == [row];
    assert row in [row];
    assert UserIds([row]) == {row.userId};
    assert FirstPerUser([row, row]) == [row];
  }

  /** The analytics of the courses whose analytics can be computed, in
      course order. */
  function Succeeded(courses: seq<CourseData>, now: int, today: int): seq<CourseAnalytics>
  {
    if |courses| == 0 then []
    else
      var cd := courses[|courses| - 1];
      Succeeded(courses[..|courses| - 1], now, today)
        + (if HasUnparseable(EntrySubs(cd.submissionsByWork)) then []
           else [CourseAnalyticsValue(cd.course.id, cd.course.name, cd.courseWork, cd.students,
                                      cd.submissionsByWork, now, today)])
  }

  /** `getAggregatedAnalytics` over the teacher's courses: a course whose
      analytics fail is skipped; nothing is returned when no course is
      left. */
  method AggregatedAnalytics(courses: seq<CourseData>, now: int, today: int) returns (r: Option<CourseAnalytics>)
    ensures r.None? <==> Succeeded(courses, now, today) == []
    ensures r.Some? ==> IsAggregateOf(r.value, Succeeded(courses, now, today))
  {
    if |courses| == 0 {
      return None;
    }
    var courseAnalytics: seq<CourseAnalytics> := [];
    for c := 0 to |courses|
      invariant courseAnalytics == Succeeded(courses[..c], now, today)
    {
      assert courses[..c + 1][..c] == courses[..c];
      var cd := courses[c];
      var analytics := CourseAnalyticsOf(cd.course.id, cd.course.name, cd.courseWork, cd.students,
                                         cd.submissionsByWork, now, today);
      if analytics.Ok? {
        courseAnalytics := courseAnalytics + [analytics.value];
      }
    }
    assert courses[..|courses|] == courses;
    if |courseAnalytics| == 0 {
      return None;
    }
    var agg := AggregateCourseAnalytics(courseAnalytics);
    r := Some(agg);
  }
}
