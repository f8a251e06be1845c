/** One performance row per course of the administrator dashboard, and the
    top and bottom five courses by submission rate. */
module AdminPerformance {
  import opened Common
  import opened Snapshot
  import opened AnalyticsTypes
  import opened StableSort
  import opened AdminOverview

  // =====================================================================
  // computeCoursePerformance
  // =====================================================================

  /** `teachers.map(t => t.profile?.name?.fullName || 'Unknown')`. */
  function TeacherNames(teachers: seq<Person>): seq<string>
  {
    seq(|teachers|, k requires 0 <= k < |teachers| => DisplayName(teachers[k].fullName, "Unknown"))
  }

  /** The update times of the submitted entries, in order. */
  function SubmittedTimes(subs: seq<Submission>): seq<string>
  {
    if |subs| == 0 then []
    else
      var s := subs[|subs| - 1];
      SubmittedTimes(subs[..|subs| - 1]) + (if IsSubmitted(s) then [s.updateTime] else [])
  }

  /** Roster entries whose unrounded rate is below 80 (a course without
      coursework rates everyone 100). */
  function BelowEighty(students: seq<Person>, cd: CourseData): nat
  {
    if |students| == 0 then 0
    else BelowEighty(students[..|students| - 1], cd)
         + (if StudentRate(students[|students| - 1].userId, cd) < 80.0 then 1 else 0)
  }

  /** The performance row of one course. */
  function CourseRow(cd: CourseData): CoursePerformance
  {
    var subs := WorkSubs(cd.courseWork, cd.submissionsByWork);
    var submitted := SubmittedIn(subs);
    CoursePerformance(
      cd.course.id, cd.course.name, Join(TeacherNames(cd.teachers), ", "),
      if |cd.teachers| > 0 then cd.teachers[0].email else None,
      |cd.students|, |cd.courseWork|,
      Percent(submitted, |cd.students| * |cd.courseWork|), Percent(LateIn(subs), submitted),
      BelowEighty(cd.students, cd), Latest(SubmittedTimes(subs)))
  }

  /** Appending one entry to the scanned entries. */
  lemma ActivityStep(seen: seq<Submission>, sub: Submission)
    ensures SubmittedIn(seen + [sub]) == SubmittedIn(seen) + (if IsSubmitted(sub) then 1 else 0)
    ensures LateIn(seen + [sub]) == LateIn(seen) + (if IsSubmitted(sub) && sub.late then 1 else 0)
    ensures Latest(SubmittedTimes(seen + [sub]))
         == if IsSubmitted(sub) then Later(Latest(SubmittedTimes(seen)), sub.updateTime) else Latest(SubmittedTimes(seen))
  {
    assert (seen + [sub])[..|seen|] == seen;
    if IsSubmitted(sub) {
      LatestFromSnoc(None, SubmittedTimes(seen), sub.updateTime);
    } else {
      assert SubmittedTimes(seen + [sub]) == SubmittedTimes(seen);
    }
  }

  /** Moving on to the next coursework item. */
  lemma WorkSubsStep(courseWork: seq<CourseWork>, entries: seq<WorkEntry>, i: nat)
    requires i < |courseWork|
    ensures WorkSubs(courseWork[..i + 1], entries) == WorkSubs(courseWork[..i], entries) + Lookup(entries, courseWork[i].id)
  {
    assert courseWork[..i + 1][..i] == courseWork[..i];
  }

  /** The inner loop over the entries of one piece of coursework, carrying
      the counts and the most recent time on from the entries before. */
  method ActivityOfWork(submissions: seq<Submission>, ghost before: seq<Submission>,
                        submitted0: nat, late0: nat, lastActivity0: Option<string>)
    returns (submitted: nat, late: nat, lastActivity: Option<string>)
    requires submitted0 == SubmittedIn(before) && late0 == LateIn(before)
    requires lastActivity0 == Latest(SubmittedTimes(before))
    ensures submitted == SubmittedIn(before + submissions) && late == LateIn(before + submissions)
    ensures lastActivity == Latest(SubmittedTimes(before + submissions))
  {
    submitted, late, lastActivity := submitted0, late0, lastActivity0;
    ghost var seen := before;
    assert before + submissions[..0] == before;
    for j := 0 to |submissions|
      invariant seen == before + submissions[..j]
      invariant submitted == SubmittedIn(seen) && late == LateIn(seen)
      invariant lastActivity == Latest(SubmittedTimes(seen))
    {
      var sub := submissions[j];
      assert submissions[..j + 1] == submissions[..j] + [sub];
      ActivityStep(seen, sub);
      if IsSubmitted(sub) {
        submitted := submitted + 1;
        if sub.late {
          late := late + 1;
        }
        if sub.updateTime != "" && (lastActivity.None? || LexLess(lastActivity.value, sub.updateTime)) {
          lastActivity := Some(sub.updateTime);
        }
      }
      seen := seen + [sub];
    }
    assert submissions[..|submissions|] == submissions;
  }

  /** The submitted and late counts and the most recent update time of the
      submitted entries of one course. */
  method CourseActivity(cd: CourseData) returns (submitted: nat, late: nat, lastActivity: Option<string>)
    ensures submitted == SubmittedIn(WorkSubs(cd.courseWork, cd.submissionsByWork))
    ensures late == LateIn(WorkSubs(cd.courseWork, cd.submissionsByWork))
    ensures lastActivity == Latest(SubmittedTimes(WorkSubs(cd.courseWork, cd.submissionsByWork)))
  {
    submitted, late, lastActivity := 0, 0, None;
    var courseWork := cd.courseWork;
    for i := 0 to |courseWork|
      invariant submitted == SubmittedIn(WorkSubs(courseWork[..i], cd.submissionsByWork))
      invariant late == LateIn(WorkSubs(courseWork[..i], cd.submissionsByWork))
      invariant lastActivity == Latest(SubmittedTimes(WorkSubs(courseWork[..i], cd.submissionsByWork)))
    {
      var submissions := Lookup(cd.submissionsByWork, courseWork[i].id);
      WorkSubsStep(courseWork, cd.submissionsByWork, i);
      submitted, late, lastActivity :=
        ActivityOfWork(submissions, WorkSubs(courseWork[..i], cd.submissionsByWork), submitted, late, lastActivity);
    }
    assert courseWork[..|courseWork|] == courseWork;
  }

  /** Roster entries with a rate below 80. */
  method CountBelowEighty(cd: CourseData) returns (atRiskStudents: nat)
    ensures atRiskStudents == BelowEighty(cd.students, cd)
  {
    atRiskStudents := 0;
    var students := cd.students;
    for k := 0 to |students|
      invariant atRiskStudents == BelowEighty(students[..k], cd)
    {
      assert students[..k + 1][..k] == students[..k];
      var studentSubmissions := GetStudentSubmissionCount(students[k].userId, cd.courseWork, cd.submissionsByWork);
      var n := |cd.courseWork|;
      var rate := if n > 0 then (studentSubmissions as real / n as real) * 100.0 else 100.0;
      if rate < 80.0 {
        atRiskStudents := atRiskStudents + 1;
      }
    }
    assert students[..|students|] == students;
  }

  /** The row of one course, as one iteration of the mapping computes it. */
  method CoursePerformanceOf(cd: CourseData) returns (row: CoursePerformance)
    ensures row == CourseRow(cd)
  {
    var teacherNames := Join(TeacherNames(cd.teachers), ", ");
    var teacherEmail := if |cd.teachers| > 0 then cd.teachers[0].email else None;
    var expectedSubmissions := |cd.students| * |cd.courseWork|;
    var totalSubmissions, lateSubmissions, lastActivity := CourseActivity(cd);
    var atRiskStudents := CountBelowEighty(cd);
    var submissionRate := if expectedSubmissions > 0 then RoundPercent(totalSubmissions, expectedSubmissions) else 0;
    var lateRate := if totalSubmissions > 0 then RoundPercent(lateSubmissions, totalSubmissions) else 0;
    assert submissionRate == Percent(totalSubmissions, expectedSubmissions);
    assert lateRate == Percent(lateSubmissions, totalSubmissions);
    row := CoursePerformance(cd.course.id, cd.course.name, teacherNames, teacherEmail,
                             |cd.students|, |cd.courseWork|, submissionRate, lateRate,
                             atRiskStudents, lastActivity);
  }

  method ComputeCoursePerformance(courseData: seq<CourseData>) returns (rows: seq<CoursePerformance>)
    ensures |rows| == |courseData|
    ensures forall i :: 0 <= i < |courseData| ==> rows[i] == CourseRow(courseData[i])
  {
    rows := [];
    for i := 0 to |courseData|
      invariant |rows| == i
      invariant forall k :: 0 <= k < i ==> rows[k] == CourseRow(courseData[k])
    {
      var row := CoursePerformanceOf(courseData[i]);
      rows := rows + [row];
    }
  }

  lemma {:induction false} BelowEightyBound(students: seq<Person>, cd: CourseData)
    ensures BelowEighty(students, cd) <= |students|
    ensures |cd.courseWork| == 0 ==> BelowEighty(students, cd) == 0
  {
    if |students| > 0 {
      BelowEightyBound(students[..|students| - 1], cd);
    }
  }

  /** The at-risk count of a course row is a count of roster entries, so at
      most the student count, and 0 without coursework; the late rate lies
      in [0, 100] and is 0 without submissions; the submission rate is 0
      without students or coursework; the contact email is the first
      teacher's. */
  lemma CourseRowFacts(cd: CourseData)
    ensures var row := CourseRow(cd);
            && row.studentCount == |cd.students| && row.assignmentCount == |cd.courseWork|
            && row.atRiskStudents <= row.studentCount
            && (row.assignmentCount == 0 ==> row.atRiskStudents == 0)
            && row.lateRate <= 100
            && (SubmittedIn(WorkSubs(cd.courseWork, cd.submissionsByWork)) == 0 ==> row.lateRate == 0)
            && (row.studentCount * row.assignmentCount == 0 ==> row.submissionRate == 0)
            && (row.teacherEmail.Some? ==> |cd.teachers| > 0 && row.teacherEmail == cd.teachers[0].email)
  {
    BelowEightyBound(cd.students, cd);
  }

  lemma {:induction false} BelowEightySplits(students: seq<Person>, cd: CourseData)
    ensures BelowEighty(students, cd) == AtRiskIn(students, cd) + InactiveIn(students, cd)
  {
    if |students| > 0 {
      BelowEightySplits(students[..|students| - 1], cd);
    }
  }

  /** The course row's at-risk count uses one threshold (< 80), so it is the
      overview's at-risk band plus its inactive band for that course. */
  lemma CourseAtRiskIncludesInactive(cd: CourseData)
    ensures CourseRow(cd).atRiskStudents == OverviewOf([cd]).atRiskStudentsCount + OverviewOf([cd]).inactiveStudentsCount
  {
    BelowEightySplits(cd.students, cd);
    assert [cd][..0] == [];
    assert AtRiskTotal([cd]) == AtRiskIn(cd.students, cd);
    assert InactiveTotal([cd]) == InactiveIn(cd.students, cd);
  }

  lemma {:induction false} SubmittedTimesFrom(subs: seq<Submission>, i: nat)
    requires i < |SubmittedTimes(subs)|
    ensures exists k :: 0 <= k < |subs| && IsSubmitted(subs[k]) && subs[k].updateTime == SubmittedTimes(subs)[i]
  {
    var init := subs[..|subs| - 1];
    if i < |SubmittedTimes(init)| {
      SubmittedTimesFrom(init, i);
      var k :| 0 <= k < |init| && IsSubmitted(init[k]) && init[k].updateTime == SubmittedTimes(init)[i];
      assert subs[k] == init[k];
    }
  }

  lemma {:induction false} SubmittedTimesCover(subs: seq<Submission>, k: nat)
    requires k < |subs| && IsSubmitted(subs[k])
    ensures subs[k].updateTime in SubmittedTimes(subs)
  {
    var init := subs[..|subs| - 1];
    if k < |subs| - 1 {
      SubmittedTimesCover(init, k);
      assert init[k] == subs[k];
    }
  }

  /** The latest update time of the submitted entries is absent exactly
      when no submitted entry has an update time; otherwise it is the update
      time of a submitted entry and no submitted entry's time is
      lexicographically later. */
  lemma LatestSubmittedTime(subs: seq<Submission>)
    ensures var last := Latest(SubmittedTimes(subs));
            && (last.None? <==> forall k :: 0 <= k < |subs| && IsSubmitted(subs[k]) ==> subs[k].updateTime == "")
            && (last.Some? ==> exists k :: 0 <= k < |subs| && IsSubmitted(subs[k]) && subs[k].updateTime == last.value)
            && (last.Some? ==> forall k :: 0 <= k < |subs| && IsSubmitted(subs[k]) ==> !LexLess(last.value, subs[k].updateTime))
  {
    var ts := SubmittedTimes(subs);
    var last := Latest(ts);
    LatestFromIsMaximum(None, ts);
    forall k | 0 <= k < |subs| && IsSubmitted(subs[k])
      ensures subs[k].updateTime in ts
    {
      SubmittedTimesCover(subs, k);
    }
    if last.Some? {
      var i :| 0 <= i < |ts| && ts[i] == last.value;
      SubmittedTimesFrom(subs, i);
    }
    if forall k :: 0 <= k < |subs| && IsSubmitted(subs[k]) ==> subs[k].updateTime == "" {
      forall i | 0 <= i < |ts|
        ensures ts[i] == ""
      {
        SubmittedTimesFrom(subs, i);
      }
    }
  }

  /** A course's last activity is the latest update time of its submitted
      entries, in the sense of LatestSubmittedTime. */
  lemma LastActivityIsLatest(cd: CourseData)
    ensures var subs := WorkSubs(cd.courseWork, cd.submissionsByWork);
            var last := CourseRow(cd).lastActivity;
            && (last.None? <==> forall k :: 0 <= k < |subs| && IsSubmitted(subs[k]) ==> subs[k].updateTime == "")
            && (last.Some? ==> exists k :: 0 <= k < |subs| && IsSubmitted(subs[k]) && subs[k].updateTime == last.value)
            && (last.Some? ==> forall k :: 0 <= k < |subs| && IsSubmitted(subs[k]) ==> !LexLess(last.value, subs[k].updateTime))
  {
    LatestSubmittedTime(WorkSubs(cd.courseWork, cd.submissionsByWork));
  }

  // =====================================================================
  // Top and bottom five
  // =====================================================================

  function Reverse<T>(s: seq<T>): (r: seq<T>)
    ensures |r| == |s|
    ensures forall k :: 0 <= k < |s| ==> r[k] == s[|s| - 1 - k]
  {
    if |s| == 0 then [] else [s[|s| - 1]] + Reverse(s[..|s| - 1])
  }

  /** The sort key of `(a, b) => b.submissionRate - a.submissionRate`. */
  function NegRate(c: CoursePerformance): int
  {
    -(c.submissionRate as int)
  }

  /** `[...coursePerformance].sort(...)`: by submission rate, highest first. */
  function Ranked(rows: seq<CoursePerformance>): seq<CoursePerformance>
  {
    SortBy(rows, NegRate)
  }

  /** `sortedCourses.slice(0, 5)`. */
  function TopPerforming(rows: seq<CoursePerformance>): seq<CoursePerformance>
  {
    var ranked := Ranked(rows);
    ranked[..Min(5, |ranked|)]
  }

  /** `sortedCourses.slice(-5).reverse()`. */
  function LowPerforming(rows: seq<CoursePerformance>): seq<CoursePerformance>
  {
    var ranked := Ranked(rows);
    Reverse(ranked[|ranked| - Min(5, |ranked|)..])
  }

  /** The ranking is a permutation of the rows, ordered by submission rate
      from highest to lowest. */
  lemma RankedFacts(rows: seq<CoursePerformance>)
    ensures multiset(Ranked(rows)) == multiset(rows)
    ensures forall i, j :: 0 <= i < j < |Ranked(rows)| ==> Ranked(rows)[i].submissionRate >= Ranked(rows)[j].submissionRate
  {
    SortBySorted(rows, NegRate);
    var r := Ranked(rows);
    forall i, j | 0 <= i < j < |r|
      ensures r[i].submissionRate >= r[j].submissionRate
    {
      assert NegRate(r[i]) <= NegRate(r[j]);
    }
  }

  /** Rows of equal submission rate keep their original relative order: for
      every sort key `k` (a negated rate), the rows carrying it appear in the
      ranking in their input order. */
  lemma RankedStable(rows: seq<CoursePerformance>, k: int)
    ensures WithKey(Ranked(rows), NegRate, k) == WithKey(rows, NegRate, k)
  {
    SortByStable(rows, NegRate, k);
  }

  /** The top list holds min(5, n) rows, highest rate first, and none of the
      rows left out has a higher rate than any row in it. */
  lemma TopPerformingFacts(rows: seq<CoursePerformance>)
    ensures |TopPerforming(rows)| == Min(5, |rows|)
    ensures TopPerforming(rows) == Ranked(rows)[..Min(5, |rows|)]
    ensures forall i, j :: 0 <= i < j < |TopPerforming(rows)| ==>
              TopPerforming(rows)[i].submissionRate >= TopPerforming(rows)[j].submissionRate
    ensures forall i, j :: 0 <= i < |TopPerforming(rows)| <= j < |rows| ==>
              TopPerforming(rows)[i].submissionRate >= Ranked(rows)[j].submissionRate
  {
    RankedFacts(rows);
  }

  /** The bottom list holds min(5, n) rows, the last rows of the ranking in
      reverse, so lowest rate first; none of the rows left out has a lower
      rate than any row in it. */
  lemma LowPerformingFacts(rows: seq<CoursePerformance>)
    ensures |LowPerforming(rows)| == Min(5, |rows|)
    ensures forall k :: 0 <= k < |LowPerforming(rows)| ==> LowPerforming(rows)[k] == Ranked(rows)[|rows| - 1 - k]
    ensures forall i, j :: 0 <= i < j < |LowPerforming(rows)| ==>
              LowPerforming(rows)[i].submissionRate <= LowPerforming(rows)[j].submissionRate
    ensures forall i, j :: 0 <= i < |LowPerforming(rows)| && 0 <= j < |rows| - |LowPerforming(rows)| ==>
              LowPerforming(rows)[i].submissionRate <= Ranked(rows)[j].submissionRate
  {
    RankedFacts(rows);
    var r := Ranked(rows);
    ReversedTail(r, Min(5, |r|));
  }

  /** The last `m` rows of a ranking, reversed. */
  lemma ReversedTail(r: seq<CoursePerformance>, m: nat)
    requires m <= |r|
    requires forall i, j :: 0 <= i < j < |r| ==> r[i].submissionRate >= r[j].submissionRate
    ensures var low := Reverse(r[|r| - m..]);
            && (forall k :: 0 <= k < m ==> low[k] == r[|r| - 1 - k])
            && (forall i, j :: 0 <= i < j < m ==> low[i].submissionRate <= low[j].submissionRate)
            && (forall i, j :: 0 <= i < m && 0 <= j < |r| - m ==> low[i].submissionRate <= r[j].submissionRate)
  {
    var n := |r|;
    var tail := r[n - m..];
    var low := Reverse(tail);
    forall k | 0 <= k < m
      ensures low[k] == r[n - 1 - k]
    {
      assert low[k] == tail[m - 1 - k];
    }
  }

  /** With five courses or fewer both lists hold every course, and the
      bottom list is the top list reversed. */
  lemma FewCoursesLowIsReversedTop(rows: seq<CoursePerformance>)
    requires |rows| <= 5
    ensures LowPerforming(rows) == Reverse(TopPerforming(rows))
  {
    var r := Ranked(rows);
    assert r[|r| - Min(5, |r|)..] == r;
    assert r[..Min(5, |r|)] == r;
  }
}
