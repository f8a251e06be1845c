/** School-wide totals of the administrator dashboard
    (src/services/adminAnalyticsService.ts): the school overview, the
    aggregate summary and the school engagement series, over the snapshot of
    every active course. */
module AdminOverview {
  import opened Common
  import opened Snapshot
  import opened AnalyticsTypes
  import opened Engagement
  import opened ClassroomAnalytics

  // =====================================================================
  // Sums over the courses
  // =====================================================================

  function PersonIds(ps: seq<Person>): set<string>
  {
    set p | p in ps :: p.userId
  }

  /** Distinct teacher ids over all courses. */
  function TeacherIds(cds: seq<CourseData>): set<string>
  {
    if |cds| == 0 then {} else TeacherIds(cds[..|cds| - 1]) + PersonIds(cds[|cds| - 1].teachers)
  }

  /** Distinct student ids over all courses. */
  function StudentIds(cds: seq<CourseData>): set<string>
  {
    if |cds| == 0 then {} else StudentIds(cds[..|cds| - 1]) + PersonIds(cds[|cds| - 1].students)
  }

  /** Roster entries over all courses, a student counted once per course. */
  function RosterTotal(cds: seq<CourseData>): nat
  {
    if |cds| == 0 then 0 else RosterTotal(cds[..|cds| - 1]) + |cds[|cds| - 1].students|
  }

  function TeacherTotal(cds: seq<CourseData>): nat
  {
    if |cds| == 0 then 0 else TeacherTotal(cds[..|cds| - 1]) + |cds[|cds| - 1].teachers|
  }

  function AssignmentTotal(cds: seq<CourseData>): nat
  {
    if |cds| == 0 then 0 else AssignmentTotal(cds[..|cds| - 1]) + |cds[|cds| - 1].courseWork|
  }

  /** One expected submission per student per piece of coursework. */
  function ExpectedTotal(cds: seq<CourseData>): nat
  {
    if |cds| == 0 then 0
    else ExpectedTotal(cds[..|cds| - 1]) + |cds[|cds| - 1].students| * |cds[|cds| - 1].courseWork|
  }

  /** The submissions of every piece of coursework of every course. */
  function SchoolSubs(cds: seq<CourseData>): seq<Submission>
  {
    if |cds| == 0 then []
    else SchoolSubs(cds[..|cds| - 1]) + WorkSubs(cds[|cds| - 1].courseWork, cds[|cds| - 1].submissionsByWork)
  }

  /** NEW or CREATED submissions on overdue coursework, over all courses. */
  function SchoolMissing(cds: seq<CourseData>, now: int): nat
  {
    if |cds| == 0 then 0
    else SchoolMissing(cds[..|cds| - 1], now) + WorkMissing(cds[|cds| - 1].courseWork, cds[|cds| - 1].submissionsByWork, now)
  }

  function ActiveCount(cds: seq<CourseData>): nat
  {
    if |cds| == 0 then 0
    else ActiveCount(cds[..|cds| - 1]) + (if cds[|cds| - 1].course.state == Active then 1 else 0)
  }

  lemma Prefix(cds: seq<CourseData>, c: nat)
    requires c < |cds|
    ensures cds[..c + 1][..c] == cds[..c]
    ensures cds[..c + 1][c] == cds[c]
  {
  }

  // =====================================================================
  // Per-student rate of one course
  // =====================================================================

  /** `getStudentSubmissionCount`. */
  method GetStudentSubmissionCount(userId: string, courseWork: seq<CourseWork>, submissionsByWork: SubmissionsByWork)
    returns (count: nat)
    ensures count == StudentSubmittedCount(userId, courseWork, submissionsByWork)
  {
    count := 0;
    for j := 0 to |courseWork|
      invariant count == StudentSubmittedCount(userId, courseWork[..j], submissionsByWork)
    {
      assert courseWork[..j + 1][..j] == courseWork[..j];
      var submissions := Lookup(submissionsByWork, courseWork[j].id);
      var studentSub := FindFor(submissions, userId);
      if studentSub.Some? && IsSubmitted(studentSub.value) {
        count := count + 1;
      }
    }
    assert courseWork[..|courseWork|] == courseWork;
  }

  /** The unrounded rate of one roster entry: 100 for a course without
      coursework. */
  function StudentRate(userId: string, cd: CourseData): real
  {
    var n := |cd.courseWork|;
    if n > 0 then (StudentSubmittedCount(userId, cd.courseWork, cd.submissionsByWork) as real / n as real) * 100.0
    else 100.0
  }

  lemma ScaleLess(x: real, y: real, n: real)
    requires n > 0.0
    ensures x < y <==> x * n < y * n
  {
    if x < y {
      assert (y - x) * n > 0.0;
    }
    if x * n < y * n {
      assert (y - x) * n > 0.0;
    }
  }

  /** A percentage of a ratio compared with a threshold, in whole numbers. */
  lemma RatioBelow(count: nat, n: nat, threshold: nat)
    requires n > 0
    ensures (count as real / n as real) * 100.0 < threshold as real <==> 100 * count < threshold * n
  {
    var q := count as real / n as real;
    var nr := n as real;
    assert q * nr == count as real;
    assert (q * 100.0) * nr == 100.0 * (q * nr);
    ScaleLess(q * 100.0, threshold as real, nr);
    assert (threshold as real) * nr == (threshold * n) as real;
    assert 100.0 * (count as real) == (100 * count) as real;
  }

  /** The rate compared with a threshold, in whole numbers. */
  lemma StudentRateBelow(userId: string, cd: CourseData, threshold: nat)
    ensures var n := |cd.courseWork|;
            var count := StudentSubmittedCount(userId, cd.courseWork, cd.submissionsByWork);
            StudentRate(userId, cd) < threshold as real <==>
              (if n > 0 then 100 * count < threshold * n else 100 < threshold)
  {
    var n := |cd.courseWork|;
    if n > 0 {
      RatioBelow(StudentSubmittedCount(userId, cd.courseWork, cd.submissionsByWork), n, threshold);
    }
  }

  /** Roster entries whose rate is below 50. */
  function InactiveIn(students: seq<Person>, cd: CourseData): nat
  {
    if |students| == 0 then 0
    else InactiveIn(students[..|students| - 1], cd)
         + (if StudentRate(students[|students| - 1].userId, cd) < 50.0 then 1 else 0)
  }

  /** Roster entries whose rate is at least 50 and below 80. */
  function AtRiskIn(students: seq<Person>, cd: CourseData): nat
  {
    if |students| == 0 then 0
    else
      var rate := StudentRate(students[|students| - 1].userId, cd);
      AtRiskIn(students[..|students| - 1], cd) + (if 50.0 <= rate < 80.0 then 1 else 0)
  }

  function InactiveTotal(cds: seq<CourseData>): nat
  {
    if |cds| == 0 then 0 else InactiveTotal(cds[..|cds| - 1]) + InactiveIn(cds[|cds| - 1].students, cds[|cds| - 1])
  }

  function AtRiskTotal(cds: seq<CourseData>): nat
  {
    if |cds| == 0 then 0 else AtRiskTotal(cds[..|cds| - 1]) + AtRiskIn(cds[|cds| - 1].students, cds[|cds| - 1])
  }

  // =====================================================================
  // computeSchoolOverview
  // =====================================================================

  function OverviewOf(cds: seq<CourseData>): SchoolOverview
  {
    var subs := SchoolSubs(cds);
    SchoolOverview(
      |cds|, ActiveCount(cds), |TeacherIds(cds)|, |StudentIds(cds)|, AssignmentTotal(cds), SubmittedIn(subs),
      Percent(SubmittedIn(subs), ExpectedTotal(cds)), Percent(LateIn(subs), SubmittedIn(subs)),
      AtRiskTotal(cds), InactiveTotal(cds))
  }

  /** `list.forEach(p => ids.add(p.userId))`. */
  method AddIds(ids: set<string>, ps: seq<Person>) returns (result: set<string>)
    ensures result == ids + PersonIds(ps)
  {
    result := ids;
    for k := 0 to |ps|
      invariant result == ids + PersonIds(ps[..k])
    {
      assert ps[..k + 1] == ps[..k] + [ps[k]];
      result := result + {ps[k].userId};
    }
    assert ps[..|ps|] == ps;
  }

  /** The expected, submitted and late counts of one course. */
  method CountWork(cd: CourseData) returns (expected: nat, submitted: nat, late: nat)
    ensures expected == |cd.students| * |cd.courseWork|
    ensures submitted == SubmittedIn(WorkSubs(cd.courseWork, cd.submissionsByWork))
    ensures late == LateIn(WorkSubs(cd.courseWork, cd.submissionsByWork))
  {
    expected, submitted, late := 0, 0, 0;
    var courseWork := cd.courseWork;
    for i := 0 to |courseWork|
      invariant expected == |cd.students| * i
      invariant submitted == SubmittedIn(WorkSubs(courseWork[..i], cd.submissionsByWork))
      invariant late == LateIn(WorkSubs(courseWork[..i], cd.submissionsByWork))
    {
      var submissions := Lookup(cd.submissionsByWork, courseWork[i].id);
      expected := expected + |cd.students|;
      assert |cd.students| * (i + 1) == |cd.students| * i + |cd.students|;
      ghost var submitted0, late0 := submitted, late;
      for j := 0 to |submissions|
        invariant submitted == submitted0 + SubmittedIn(submissions[..j])
        invariant late == late0 + LateIn(submissions[..j])
      {
        assert submissions[..j + 1][..j] == submissions[..j];
        if IsSubmitted(submissions[j]) {
          submitted := submitted + 1;
          if submissions[j].late {
            late := late + 1;
          }
        }
      }
      assert submissions[..|submissions|] == submissions;
      assert courseWork[..i + 1][..i] == courseWork[..i];
      CountsOfConcat(WorkSubs(courseWork[..i], cd.submissionsByWork), submissions);
    }
    assert courseWork[..|courseWork|] == courseWork;
  }

  /** The at-risk and inactive roster entries of one course. */
  method CountBands(cd: CourseData) returns (atRisk: nat, inactive: nat)
    ensures atRisk == AtRiskIn(cd.students, cd)
    ensures inactive == InactiveIn(cd.students, cd)
  {
    atRisk, inactive := 0, 0;
    var students := cd.students;
    for k := 0 to |students|
      invariant atRisk == AtRiskIn(students[..k], cd)
      invariant inactive == InactiveIn(students[..k], cd)
    {
      assert students[..k + 1][..k] == students[..k];
      var studentSubmissions := GetStudentSubmissionCount(students[k].userId, cd.courseWork, cd.submissionsByWork);
      var n := |cd.courseWork|;
      var rate := if n > 0 then (studentSubmissions as real / n as real) * 100.0 else 100.0;
      if rate < 50.0 {
        inactive := inactive + 1;
      } else if rate < 80.0 {
        atRisk := atRisk + 1;
      }
    }
    assert students[..|students|] == students;
  }

  method ComputeSchoolOverview(courseData: seq<CourseData>) returns (overview: SchoolOverview)
    ensures overview == OverviewOf(courseData)
  {
    var uniqueTeachers: set<string> := {};
    var uniqueStudents: set<string> := {};
    var totalAssignments, totalSubmissions, lateSubmissions, expectedSubmissions := 0, 0, 0, 0;
    var atRiskCount, inactiveCount := 0, 0;
    for c := 0 to |courseData|
      invariant uniqueTeachers == TeacherIds(courseData[..c])
      invariant uniqueStudents == StudentIds(courseData[..c])
      invariant totalAssignments == AssignmentTotal(courseData[..c])
      invariant expectedSubmissions == ExpectedTotal(courseData[..c])
      invariant totalSubmissions == SubmittedIn(SchoolSubs(courseData[..c]))
      invariant lateSubmissions == LateIn(SchoolSubs(courseData[..c]))
      invariant atRiskCount == AtRiskTotal(courseData[..c])
      invariant inactiveCount == InactiveTotal(courseData[..c])
    {
      Prefix(courseData, c);
      var cd := courseData[c];
      uniqueTeachers := AddIds(uniqueTeachers, cd.teachers);
      uniqueStudents := AddIds(uniqueStudents, cd.students);
      totalAssignments := totalAssignments + |cd.courseWork|;
      var expected, submitted, late := CountWork(cd);
      CountsOfConcat(SchoolSubs(courseData[..c]), WorkSubs(cd.courseWork, cd.submissionsByWork));
      expectedSubmissions := expectedSubmissions + expected;
      totalSubmissions := totalSubmissions + submitted;
      lateSubmissions := lateSubmissions + late;
      var atRisk, inactive := CountBands(cd);
      atRiskCount := atRiskCount + atRisk;
      inactiveCount := inactiveCount + inactive;
    }
    assert courseData[..|courseData|] == courseData;
    var overallSubmissionRate := if expectedSubmissions > 0 then RoundPercent(totalSubmissions, expectedSubmissions) else 0;
    var overallLateRate := if totalSubmissions > 0 then RoundPercent(lateSubmissions, totalSubmissions) else 0;
    overview := SchoolOverview(|courseData|, ActiveCount(courseData), |uniqueTeachers|, |uniqueStudents|,
                               totalAssignments, totalSubmissions, overallSubmissionRate, overallLateRate,
                               atRiskCount, inactiveCount);
  }

  /** The two overview rates computed from raw counts. */
  lemma RateBounds(submitted: nat, late: nat, expected: nat)
    requires late <= submitted
    ensures Percent(late, submitted) <= 100
    ensures submitted == 0 ==> Percent(late, submitted) == 0
    ensures expected == 0 ==> Percent(submitted, expected) == 0
    ensures expected > 0 ==>
              2 * expected * Percent(submitted, expected) <= 200 * submitted + expected
              < 2 * expected * (Percent(submitted, expected) + 1)
  {
    if expected > 0 {
      assert Percent(submitted, expected) == RoundPercent(submitted, expected);
    }
  }

  /** A school without courses has every figure 0. */
  lemma EmptyOverview()
    ensures OverviewOf([]) == SchoolOverview(0, 0, 0, 0, 0, 0, 0, 0, 0, 0)
  {
    assert SchoolSubs([]) == [];
  }

  /** The overall rates: the submission rate is 100 * submitted / expected
      rounded half up (0 without expected submissions), the late rate lies
      in [0, 100] and is 0 without submissions, and late submissions never
      exceed submissions. */
  lemma OverviewRates(cds: seq<CourseData>)
    ensures var o := OverviewOf(cds);
            && LateIn(SchoolSubs(cds)) <= o.totalSubmissions
            && o.overallLateRate <= 100
            && (o.totalSubmissions == 0 ==> o.overallLateRate == 0)
            && (ExpectedTotal(cds) == 0 ==> o.overallSubmissionRate == 0)
            && (ExpectedTotal(cds) > 0 ==>
                  2 * ExpectedTotal(cds) * o.overallSubmissionRate <= 200 * o.totalSubmissions + ExpectedTotal(cds)
                  < 2 * ExpectedTotal(cds) * (o.overallSubmissionRate + 1))
  {
    var o, late := OverviewOf(cds), LateIn(SchoolSubs(cds));
    assert o.totalSubmissions == SubmittedIn(SchoolSubs(cds));
    assert o.overallSubmissionRate == Percent(o.totalSubmissions, ExpectedTotal(cds));
    assert o.overallLateRate == Percent(late, o.totalSubmissions);
    RateBounds(o.totalSubmissions, late, ExpectedTotal(cds));
  }

  lemma {:induction false} BandsWithinRoster(students: seq<Person>, cd: CourseData)
    ensures AtRiskIn(students, cd) + InactiveIn(students, cd) <= |students|
  {
    if |students| > 0 {
      BandsWithinRoster(students[..|students| - 1], cd);
    }
  }

  /** Each roster entry is classified at most once, so the at-risk and
      inactive counts together never exceed the roster entries. */
  lemma {:induction false} FlaggedWithinRoster(cds: seq<CourseData>)
    ensures OverviewOf(cds).atRiskStudentsCount + OverviewOf(cds).inactiveStudentsCount <= RosterTotal(cds)
  {
    if |cds| > 0 {
      FlaggedWithinRoster(cds[..|cds| - 1]);
      BandsWithinRoster(cds[|cds| - 1].students, cds[|cds| - 1]);
    }
  }

  lemma {:induction false} NoCourseworkBands(students: seq<Person>, cd: CourseData)
    requires |cd.courseWork| == 0
    ensures AtRiskIn(students, cd) == 0 && InactiveIn(students, cd) == 0
  {
    if |students| > 0 {
      NoCourseworkBands(students[..|students| - 1], cd);
    }
  }

  /** A course without coursework rates every student 100, so none of its
      students is counted at risk or inactive. */
  lemma NoCourseworkNeverFlagged(cd: CourseData)
    requires |cd.courseWork| == 0
    ensures OverviewOf([cd]).atRiskStudentsCount == 0
    ensures OverviewOf([cd]).inactiveStudentsCount == 0
  {
    NoCourseworkBands(cd.students, cd);
    assert [cd][..0] == [];
    assert AtRiskTotal([cd]) == AtRiskIn(cd.students, cd);
    assert InactiveTotal([cd]) == InactiveIn(cd.students, cd);
  }

  lemma {:induction false} PersonIdsBound(ps: seq<Person>)
    ensures |PersonIds(ps)| <= |ps|
  {
    if |ps| > 0 {
      var init := ps[..|ps| - 1];
      PersonIdsBound(init);
      assert ps == init + [ps[|ps| - 1]];
      assert PersonIds(ps) == PersonIds(init) + {ps[|ps| - 1].userId};
    }
  }

  lemma UnionBound(a: set<string>, b: set<string>)
    ensures |a + b| <= |a| + |b|
  {
    assert a + b == a + (b - a);
    assert |b - a| <= |b| by {
      assert b == (b - a) + (b * a);
    }
  }

  /** The teacher and student counts are counts of distinct ids, so never
      larger than the roster entries they come from. */
  lemma {:induction false} DistinctIdsBound(cds: seq<CourseData>)
    ensures |StudentIds(cds)| <= RosterTotal(cds)
    ensures |TeacherIds(cds)| <= TeacherTotal(cds)
  {
    if |cds| > 0 {
      var init, cd := cds[..|cds| - 1], cds[|cds| - 1];
      DistinctIdsBound(init);
      PersonIdsBound(cd.students);
      PersonIdsBound(cd.teachers);
      UnionBound(StudentIds(init), PersonIds(cd.students));
      UnionBound(TeacherIds(init), PersonIds(cd.teachers));
    }
  }

  /** The same student in two courses is one student of the school. */
  lemma SharedStudentCountedOnce(a: CourseData, b: CourseData, s: Person)
    requires a.students == [s] && b.students == [s]
    ensures OverviewOf([a, b]).totalStudents == 1
    ensures RosterTotal([a, b]) == 2
  {
    assert [a, b][..1] == [a];
    assert [a][..0] == [];
    assert s in [s];
    assert PersonIds([s]) == {s.userId};
    assert StudentIds([a]) == {s.userId};
    assert StudentIds([a, b]) == {s.userId};
    assert RosterTotal([a]) == 1;
  }

  lemma {:induction false} AllActiveCount(cds: seq<CourseData>)
    requires forall c :: 0 <= c < |cds| ==> cds[c].course.state == Active
    ensures ActiveCount(cds) == |cds|
  {
    if |cds| > 0 {
      AllActiveCount(cds[..|cds| - 1]);
    }
  }

  /** The dashboard only loads active courses, so then every course counts
      as active. */
  lemma ActiveCoursesAreAllCourses(cds: seq<CourseData>)
    requires forall c :: 0 <= c < |cds| ==> cds[c].course.state == Active
    ensures OverviewOf(cds).activeCourses == OverviewOf(cds).totalCourses
  {
    AllActiveCount(cds);
  }

  // =====================================================================
  // computeAggregateSummary
  // =====================================================================

  function AggregateSummaryOf(cds: seq<CourseData>, now: int): AnalyticsSummary
  {
    var subs := SchoolSubs(cds);
    AnalyticsSummary(|StudentIds(cds)|, AssignmentTotal(cds), SubmittedIn(subs), LateIn(subs), SchoolMissing(cds, now))
  }

  /** The per-course loop is the one of the course summary; the student
      count is the number of distinct student ids. */
  method ComputeAggregateSummary(courseData: seq<CourseData>, now: int) returns (summary: AnalyticsSummary)
    ensures summary == AggregateSummaryOf(courseData, now)
  {
    var uniqueStudents: set<string> := {};
    var totalAssignments, totalSubmissions, lateSubmissions, missingSubmissions := 0, 0, 0, 0;
    for c := 0 to |courseData|
      invariant uniqueStudents == StudentIds(courseData[..c])
      invariant totalAssignments == AssignmentTotal(courseData[..c])
      invariant totalSubmissions == SubmittedIn(SchoolSubs(courseData[..c]))
      invariant lateSubmissions == LateIn(SchoolSubs(courseData[..c]))
      invariant missingSubmissions == SchoolMissing(courseData[..c], now)
    {
      Prefix(courseData, c);
      var cd := courseData[c];
      uniqueStudents := AddIds(uniqueStudents, cd.students);
      totalAssignments := totalAssignments + |cd.courseWork|;
      var course := ComputeSummary(cd.courseWork, cd.students, cd.submissionsByWork, now);
      CountsOfConcat(SchoolSubs(courseData[..c]), WorkSubs(cd.courseWork, cd.submissionsByWork));
      totalSubmissions := totalSubmissions + course.totalSubmissions;
      lateSubmissions := lateSubmissions + course.lateSubmissions;
      missingSubmissions := missingSubmissions + course.missingSubmissions;
    }
    assert courseData[..|courseData|] == courseData;
    summary := AnalyticsSummary(|uniqueStudents|, totalAssignments, totalSubmissions, lateSubmissions, missingSubmissions);
  }

  /** Some piece of the course's coursework is overdue with a NEW or CREATED
      entry. */
  ghost predicate CourseOverdue(cd: CourseData, now: int)
  {
    exists k :: 0 <= k < |cd.courseWork| && OverduePending(cd.courseWork[k], cd.submissionsByWork, now)
  }

  /** The school's missing count is positive exactly when some course has an
      overdue piece of coursework with a NEW or CREATED entry. */
  lemma {:induction false} SchoolMissingPositive(cds: seq<CourseData>, now: int)
    ensures SchoolMissing(cds, now) > 0 <==> exists c :: 0 <= c < |cds| && CourseOverdue(cds[c], now)
  {
    if |cds| > 0 {
      var init, cd := cds[..|cds| - 1], cds[|cds| - 1];
      SchoolMissingPositive(init, now);
      MissingIffOverduePending(cd.courseWork, cd.submissionsByWork, now);
      assert WorkMissing(cd.courseWork, cd.submissionsByWork, now) > 0 <==> CourseOverdue(cd, now);
      if exists c :: 0 <= c < |init| && CourseOverdue(init[c], now) {
        var c :| 0 <= c < |init| && CourseOverdue(init[c], now);
        assert cds[c] == init[c];
      }
      if exists c :: 0 <= c < |cds| && CourseOverdue(cds[c], now) {
        var c :| 0 <= c < |cds| && CourseOverdue(cds[c], now);
        if c < |init| {
          assert init[c] == cds[c];
        }
      }
    }
  }

  /** The aggregate summary reports missing submissions exactly when some
      course has an overdue piece of coursework with a NEW or CREATED entry. */
  lemma SchoolMissingIff(cds: seq<CourseData>, now: int)
    ensures AggregateSummaryOf(cds, now).missingSubmissions > 0 <==>
              exists c :: 0 <= c < |cds| && CourseOverdue(cds[c], now)
  {
    SchoolMissingPositive(cds, now);
  }

  /** Late submissions never exceed submissions, and the student count is
      a distinct count, at most the roster entries. */
  lemma AggregateSummaryBounds(cds: seq<CourseData>, now: int)
    ensures AggregateSummaryOf(cds, now).lateSubmissions <= AggregateSummaryOf(cds, now).totalSubmissions
    ensures AggregateSummaryOf(cds, now).totalStudents <= RosterTotal(cds)
  {
    DistinctIdsBound(cds);
  }

  // =====================================================================
  // computeAggregateEngagement
  // =====================================================================

  /** The school engagement series: every submitted entry of every piece of
      coursework with a parseable update time in the window counts once on
      its day; entries whose time does not parse are skipped, so the series
      is always produced. */
  method ComputeAggregateEngagement(courseData: seq<CourseData>, today: int) returns (points: seq<EngagementPoint>)
    ensures points == Series(SchoolSubs(courseData), today)
  {
    var submissionsByDate, dates := InitWindow(today);
    for c := 0 to |courseData|
      invariant forall d :: d in submissionsByDate <==> WindowStart(today) <= d <= today
      invariant forall d :: d in submissionsByDate ==> submissionsByDate[d] == DayCount(SchoolSubs(courseData[..c]), d)
    {
      Prefix(courseData, c);
      var cd := courseData[c];
      submissionsByDate := CountCourseDays(submissionsByDate, SchoolSubs(courseData[..c]), cd, today);
    }
    assert courseData[..|courseData|] == courseData;
    points := [];
    for k := 0 to |dates|
      invariant points == SeriesFrom(SchoolSubs(courseData), WindowStart(today), k)
    {
      points := points + [EngagementPoint(dates[k], submissionsByDate[dates[k]])];
    }
  }

  lemma DayCountConcatStep(a: seq<Submission>, b: seq<Submission>, j: nat, d: int)
    requires j < |b|
    ensures DayCount(a + b[..j + 1], d) == DayCount(a + b[..j], d) + (if CountsOn(b[j], d) then 1 else 0)
  {
    assert (a + b[..j + 1])[..|a + b[..j]|] == a + b[..j];
    assert (a + b[..j + 1])[|a + b[..j]|] == b[j];
  }

  /** Adds one piece of coursework's submissions to the day buckets. */
  method CountWorkDays(buckets: map<int, nat>, submissions: seq<Submission>, ghost seen: seq<Submission>, today: int)
    returns (result: map<int, nat>)
    requires forall d :: d in buckets <==> WindowStart(today) <= d <= today
    requires forall d :: d in buckets ==> buckets[d] == DayCount(seen, d)
    ensures forall d :: d in result <==> WindowStart(today) <= d <= today
    ensures forall d :: d in result ==> result[d] == DayCount(seen + submissions, d)
  {
    result := buckets;
    assert seen + submissions[..0] == seen;
    for j := 0 to |submissions|
      invariant forall d :: d in result <==> WindowStart(today) <= d <= today
      invariant forall d :: d in result ==> result[d] == DayCount(seen + submissions[..j], d)
    {
      var sub := submissions[j];
      forall d
        ensures DayCount(seen + submissions[..j + 1], d) == DayCount(seen + submissions[..j], d) + (if CountsOn(sub, d) then 1 else 0)
      {
        DayCountConcatStep(seen, submissions, j, d);
      }
      if IsSubmitted(sub) && sub.updateTime != "" {
        if sub.updateDay.Some? {
          var date := sub.updateDay.value;
          if date in result {
            result := result[date := result[date] + 1];
          }
        }
      }
    }
    assert submissions[..|submissions|] == submissions;
  }

  /** Adds one course's submissions to the day buckets. */
  method CountCourseDays(buckets: map<int, nat>, ghost before: seq<Submission>, cd: CourseData, today: int)
    returns (result: map<int, nat>)
    requires forall d :: d in buckets <==> WindowStart(today) <= d <= today
    requires forall d :: d in buckets ==> buckets[d] == DayCount(before, d)
    ensures forall d :: d in result <==> WindowStart(today) <= d <= today
    ensures forall d :: d in result ==> result[d] == DayCount(before + WorkSubs(cd.courseWork, cd.submissionsByWork), d)
  {
    result := buckets;
    var courseWork := cd.courseWork;
    assert before + WorkSubs(courseWork[..0], cd.submissionsByWork) == before;
    for i := 0 to |courseWork|
      invariant forall d :: d in result <==> WindowStart(today) <= d <= today
      invariant forall d :: d in result ==> result[d] == DayCount(before + WorkSubs(courseWork[..i], cd.submissionsByWork), d)
    {
      var submissions := Lookup(cd.submissionsByWork, courseWork[i].id);
      ghost var seen := before + WorkSubs(courseWork[..i], cd.submissionsByWork);
      result := CountWorkDays(result, submissions, seen, today);
      assert courseWork[..i + 1][..i] == courseWork[..i];
      assert before + WorkSubs(courseWork[..i + 1], cd.submissionsByWork) == seen + submissions;
    }
    assert courseWork[..|courseWork|] == courseWork;
  }

  /** The school series counts each qualifying submission at most once: its
      total is at most the number of submitted entries with an update time. */
  lemma AggregateEngagementTotal(cds: seq<CourseData>, today: int)
    ensures TotalOf(Series(SchoolSubs(cds), today)) <= DatedCount(SchoolSubs(cds))
    ensures |Series(SchoolSubs(cds), today)| == WindowDays
  {
    SeriesTotal(SchoolSubs(cds), today);
    SeriesShape(SchoolSubs(cds), today);
  }
}
