/** Per-course analytics of the teacher dashboard
    (src/services/classroomAnalyticsService.ts): the course totals, the
    30-day engagement histogram, one row per assignment and one row per
    student. Each computation is a loop method proved equal to a
    specification function; the properties the dashboard relies on are
    lemmas about those functions. */
module ClassroomAnalytics {
  import opened Common
  import opened Snapshot
  import opened AnalyticsTypes
  import opened Engagement

  // =====================================================================
  // computeSummary
  // =====================================================================

  /** The course totals: roster and coursework sizes, submitted and late
      entries over every piece of coursework, and NEW/CREATED entries on
      overdue coursework. */
  function SummaryOf(courseWork: seq<CourseWork>, students: seq<Person>, entries: seq<WorkEntry>, now: int): AnalyticsSummary
  {
    var subs := WorkSubs(courseWork, entries);
    AnalyticsSummary(|students|, |courseWork|, SubmittedIn(subs), LateIn(subs), WorkMissing(courseWork, entries, now))
  }

  method ComputeSummary(courseWork: seq<CourseWork>, students: seq<Person>, submissionsByWork: SubmissionsByWork, now: int)
    returns (summary: AnalyticsSummary)
    ensures summary == SummaryOf(courseWork, students, submissionsByWork, now)
  {
    var totalSubmissions, lateSubmissions, missingSubmissions := 0, 0, 0;
    for i := 0 to |courseWork|
      invariant totalSubmissions == SubmittedIn(WorkSubs(courseWork[..i], submissionsByWork))
      invariant lateSubmissions == LateIn(WorkSubs(courseWork[..i], submissionsByWork))
      invariant missingSubmissions == WorkMissing(courseWork[..i], submissionsByWork, now)
    {
      var work := courseWork[i];
      var submissions := Lookup(submissionsByWork, work.id);
      ghost var total0, late0, missing0 := totalSubmissions, lateSubmissions, missingSubmissions;
      for j := 0 to |submissions|
        invariant totalSubmissions == total0 + SubmittedIn(submissions[..j])
        invariant lateSubmissions == late0 + LateIn(submissions[..j])
        invariant missingSubmissions == missing0 + (if Overdue(work, now) then PendingIn(submissions[..j]) else 0)
      {
        var sub := submissions[j];
        assert submissions[..j + 1][..j] == submissions[..j];
        if IsSubmitted(sub) {
          totalSubmissions := totalSubmissions + 1;
          if sub.late {
            lateSubmissions := lateSubmissions + 1;
          }
        } else if IsPending(sub) {
          if work.dueMidnight.Some? {
            if now > work.dueMidnight.value {
              missingSubmissions := missingSubmissions + 1;
            }
          }
        }
      }
      assert submissions[..|submissions|] == submissions;
      assert courseWork[..i + 1][..i] == courseWork[..i];
      assert WorkSubs(courseWork[..i + 1], submissionsByWork) == WorkSubs(courseWork[..i], submissionsByWork) + submissions;
      CountsOfConcat(WorkSubs(courseWork[..i], submissionsByWork), submissions);
    }
    assert courseWork[..|courseWork|] == courseWork;
    summary := AnalyticsSummary(|students|, |courseWork|, totalSubmissions, lateSubmissions, missingSubmissions);
  }

  /** A piece of coursework past its due date with a NEW or CREATED entry. */
  ghost predicate OverduePending(work: CourseWork, entries: seq<WorkEntry>, now: int)
  {
    Overdue(work, now) && exists s :: s in Lookup(entries, work.id) && IsPending(s)
  }

  lemma OverduePendingCount(work: CourseWork, entries: seq<WorkEntry>, now: int)
    ensures OverduePending(work, entries, now) <==> Overdue(work, now) && PendingIn(Lookup(entries, work.id)) > 0
  {
    var subs := Lookup(entries, work.id);
    PendingInPositive(subs);
    if exists s :: s in subs && IsPending(s) {
      var s :| s in subs && IsPending(s);
      var k :| 0 <= k < |subs| && subs[k] == s;
    }
  }

  /** The course has missing submissions exactly when some overdue piece of
      coursework has a NEW or CREATED entry; in particular coursework without
      a due date, or not yet due, never contributes. */
  lemma {:induction false} MissingIffOverduePending(courseWork: seq<CourseWork>, entries: seq<WorkEntry>, now: int)
    ensures WorkMissing(courseWork, entries, now) > 0 <==>
              exists k :: 0 <= k < |courseWork| && OverduePending(courseWork[k], entries, now)
  {
    if |courseWork| > 0 {
      var n := |courseWork| - 1;
      var init := courseWork[..n];
      MissingIffOverduePending(init, entries, now);
      OverduePendingCount(courseWork[n], entries, now);
      assert WorkMissing(courseWork, entries, now) > 0 <==>
               WorkMissing(init, entries, now) > 0 || OverduePending(courseWork[n], entries, now);
      if exists k :: 0 <= k < |init| && OverduePending(init[k], entries, now) {
        var k :| 0 <= k < |init| && OverduePending(init[k], entries, now);
        assert courseWork[k] == init[k];
      }
      if exists k :: 0 <= k < |courseWork| && OverduePending(courseWork[k], entries, now) {
        var k :| 0 <= k < |courseWork| && OverduePending(courseWork[k], entries, now);
        if k < n {
          assert init[k] == courseWork[k];
        }
      }
    }
  }

  /** The end-to-end case of one assignment whose due date has passed and one
      student whose submission is still NEW: one missing submission, none
      submitted. */
  lemma OverdueNewSubmissionIsMissing(work: CourseWork, student: Person, s: Submission, now: int)
    requires Overdue(work, now) && s.state == New
    ensures SummaryOf([work], [student], [WorkEntry(work.id, [s])], now).missingSubmissions == 1
    ensures SummaryOf([work], [student], [WorkEntry(work.id, [s])], now).totalSubmissions == 0
  {
    var entries := [WorkEntry(work.id, [s])];
    assert Lookup(entries, work.id) == [s];
    assert [work][..0] == [];
    assert [s][..0] == [];
    assert WorkSubs([work], entries) == [s];
    assert PendingIn([s]) == 1;
    assert WorkMissing([work], entries, now) == WorkMissing([], entries, now) + PendingIn([s]);
  }

  // =====================================================================
  // computeEngagementData
  // =====================================================================

  /** Every submission of the record, key by key in insertion order
      (`Object.keys(submissionsByWork)`), whether or not the key is the id of
      a piece of coursework. */
  function EntrySubs(entries: seq<WorkEntry>): seq<Submission>
  {
    if |entries| == 0 then []
    else EntrySubs(entries[..|entries| - 1]) + entries[|entries| - 1].submissions
  }

  predicate HasUnparseable(subs: seq<Submission>)
  {
    exists k :: 0 <= k < |subs| && Unparseable(subs[k])
  }

  lemma {:induction false} EntrySubsPrefix(entries: seq<WorkEntry>, e: nat)
    requires e < |entries|
    ensures EntrySubs(entries[..e]) + entries[e].submissions == EntrySubs(entries[..e + 1])
    ensures EntrySubs(entries[..e + 1]) <= EntrySubs(entries)
    decreases |entries| - e
  {
    assert entries[..e + 1][..e] == entries[..e];
    if e + 1 < |entries| {
      EntrySubsPrefix(entries, e + 1);
      assert entries[..e + 2][..e + 1] == entries[..e + 1];
    } else {
      assert entries[..e + 1] == entries;
    }
  }

  /** Buckets 0 for every day of the window, keyed by day, plus the keys in
      insertion order (oldest first). */
  method InitWindow(today: int) returns (buckets: map<int, nat>, dates: seq<int>)
    ensures |dates| == WindowDays
    ensures forall k :: 0 <= k < |dates| ==> dates[k] == WindowStart(today) + k
    ensures forall d :: d in buckets <==> WindowStart(today) <= d <= today
    ensures forall d :: d in buckets ==> buckets[d] == 0
  {
    buckets, dates := map[], [];
    var i := 29;
    while i >= 0
      invariant -1 <= i <= 29
      invariant |dates| == 29 - i
      invariant forall k :: 0 <= k < |dates| ==> dates[k] == WindowStart(today) + k
      invariant forall d :: d in buckets <==> WindowStart(today) <= d < WindowStart(today) + |dates|
      invariant forall d :: d in buckets ==> buckets[d] == 0
    {
      var date := today - i;
      buckets := buckets[date := 0];
      dates := dates + [date];
      i := i - 1;
    }
  }

  /** One more entry adds one to the count of its own day only. */
  lemma DayCountSnoc(seen: seq<Submission>, sub: Submission, d: int)
    ensures DayCount(seen + [sub], d) == DayCount(seen, d) + (if CountsOn(sub, d) then 1 else 0)
  {
    assert (seen + [sub])[..|seen|] == seen;
  }

  /** The inner loop over one coursework's entries: each dated entry adds one
      to the bucket of its day, and an entry whose time does not parse stops
      the count (`ok` false). */
  method CountDays(buckets: map<int, nat>, submissions: seq<Submission>, ghost seen: seq<Submission>, today: int)
    returns (buckets': map<int, nat>, ok: bool)
    requires forall d :: d in buckets <==> WindowStart(today) <= d <= today
    requires forall d :: d in buckets ==> buckets[d] == DayCount(seen, d)
    ensures ok <==> forall k :: 0 <= k < |submissions| ==> !Unparseable(submissions[k])
    ensures ok ==> forall d :: d in buckets' <==> WindowStart(today) <= d <= today
    ensures ok ==> forall d :: d in buckets' ==> buckets'[d] == DayCount(seen + submissions, d)
  {
    buckets' := buckets;
    assert seen + submissions[..0] == seen;
    for j := 0 to |submissions|
      invariant forall k :: 0 <= k < j ==> !Unparseable(submissions[k])
      invariant forall d :: d in buckets' <==> WindowStart(today) <= d <= today
      invariant forall d :: d in buckets' ==> buckets'[d] == DayCount(seen + submissions[..j], d)
    {
      var sub := submissions[j];
      assert seen + submissions[..j + 1] == (seen + submissions[..j]) + [sub];
      forall d
        ensures DayCount(seen + submissions[..j + 1], d) == DayCount(seen + submissions[..j], d) + (if CountsOn(sub, d) then 1 else 0)
      {
        DayCountSnoc(seen + submissions[..j], sub, d);
      }
      if IsSubmitted(sub) && sub.updateTime != "" {
        if sub.updateDay.None? {
          assert Unparseable(submissions[j]);
          return buckets', false;
        }
        var date := sub.updateDay.value;
        if date in buckets' {
          buckets' := buckets'[date := buckets'[date] + 1];
        }
      }
    }
    assert submissions[..|submissions|] == submissions;
    ok := true;
  }

  /** `computeEngagementData`: fails exactly when some submitted entry has an
      update time that does not parse (the unguarded `format(parseISO(..))`
      throws); otherwise returns the engagement series of every submission
      in the record. */
  method ComputeEngagementData(submissionsByWork: SubmissionsByWork, today: int)
    returns (result: Result<seq<EngagementPoint>>)
    ensures result.Err? <==> HasUnparseable(EntrySubs(submissionsByWork))
    ensures result.Ok? ==> result.value == Series(EntrySubs(submissionsByWork), today)
  {
    var submissionsByDate, dates := InitWindow(today);
    ghost var seen: seq<Submission> := [];
    for e := 0 to |submissionsByWork|
      invariant seen == EntrySubs(submissionsByWork[..e])
      invariant forall k :: 0 <= k < |seen| ==> !Unparseable(seen[k])
      invariant forall d :: d in submissionsByDate <==> WindowStart(today) <= d <= today
      invariant forall d :: d in submissionsByDate ==> submissionsByDate[d] == DayCount(seen, d)
    {
      var submissions := submissionsByWork[e].submissions;
      EntrySubsPrefix(submissionsByWork, e);
      var ok;
      submissionsByDate, ok := CountDays(submissionsByDate, submissions, seen, today);
      if !ok {
        var k :| 0 <= k < |submissions| && Unparseable(submissions[k]);
        assert EntrySubs(submissionsByWork)[|seen| + k] == submissions[k];
        return Err(InvalidTimeValue);
      }
      seen := seen + submissions;
    }
    assert submissionsByWork[..|submissionsByWork|] == submissionsByWork;
    var points: seq<EngagementPoint> := [];
    for k := 0 to |dates|
      invariant points == SeriesFrom(seen, WindowStart(today), k)
    {
      points := points + [EngagementPoint(dates[k], submissionsByDate[dates[k]])];
    }
    result := Ok(points);
  }

  // =====================================================================
  // computeAssignmentStats
  // =====================================================================

  /** The row of one piece of coursework: submitted and late entries in its
      list, the roster size minus the submitted count, and the unrounded
      real percentage of submitted entries over the roster size. */
  function AssignmentRow(work: CourseWork, totalStudents: nat, entries: seq<WorkEntry>): AssignmentAnalytics
  {
    var subs := Lookup(entries, work.id);
    var submitted := SubmittedIn(subs);
    AssignmentAnalytics(
      work.id, work.title, work.dueMidnight, work.maxPoints,
      submitted, totalStudents - submitted, LateIn(subs), totalStudents,
      if totalStudents > 0 then (submitted as real / totalStudents as real) * 100.0 else 0.0)
  }

  function AssignmentRows(courseWork: seq<CourseWork>, totalStudents: nat, entries: seq<WorkEntry>): seq<AssignmentAnalytics>
  {
    seq(|courseWork|, i requires 0 <= i < |courseWork| => AssignmentRow(courseWork[i], totalStudents, entries))
  }

  method ComputeAssignmentStats(courseWork: seq<CourseWork>, totalStudents: nat, submissionsByWork: SubmissionsByWork)
    returns (rows: seq<AssignmentAnalytics>)
    ensures |rows| == |courseWork|
    ensures forall i :: 0 <= i < |courseWork| ==> rows[i] == AssignmentRow(courseWork[i], totalStudents, submissionsByWork)
  {
    rows := [];
    for i := 0 to |courseWork|
      invariant |rows| == i
      invariant forall k :: 0 <= k < i ==> rows[k] == AssignmentRow(courseWork[k], totalStudents, submissionsByWork)
    {
      var row := AssignmentStatsRow(courseWork[i], totalStudents, submissionsByWork);
      rows := rows + [row];
    }
  }

  /** One piece of coursework's row of the assignment table. */
  method AssignmentStatsRow(work: CourseWork, totalStudents: nat, submissionsByWork: SubmissionsByWork)
    returns (row: AssignmentAnalytics)
    ensures row == AssignmentRow(work, totalStudents, submissionsByWork)
  {
    var submissions := Lookup(submissionsByWork, work.id);
    var submittedCount, lateCount := 0, 0;
    for j := 0 to |submissions|
      invariant submittedCount == SubmittedIn(submissions[..j])
      invariant lateCount == LateIn(submissions[..j])
    {
      assert submissions[..j + 1][..j] == submissions[..j];
      if IsSubmitted(submissions[j]) {
        submittedCount := submittedCount + 1;
        if submissions[j].late {
          lateCount := lateCount + 1;
        }
      }
    }
    assert submissions[..|submissions|] == submissions;
    var missingCount := totalStudents - submittedCount;
    var submissionRate := if totalStudents > 0 then (submittedCount as real / totalStudents as real) * 100.0 else 0.0;
    row := AssignmentAnalytics(work.id, work.title, work.dueMidnight, work.maxPoints,
                               submittedCount, missingCount, lateCount, totalStudents, submissionRate);
  }

  /** `submitted / total * 100` times `total` is `100 * submitted`, and it
      lies in [0, 100] when `submitted <= total`. */
  lemma RateArithmetic(submitted: nat, total: nat)
    requires total > 0
    ensures (submitted as real / total as real) * 100.0 * (total as real) == 100.0 * (submitted as real)
    ensures 0.0 <= (submitted as real / total as real) * 100.0
    ensures submitted <= total ==> (submitted as real / total as real) * 100.0 <= 100.0
  {
    var q, t := submitted as real / total as real, total as real;
    assert q * t == submitted as real;
    assert q * 100.0 * t == 100.0 * (q * t);
  }

  /** Submitted plus missing is the roster size, late never exceeds
      submitted, the rate is 0 for an empty roster and otherwise is exactly
      100 * submitted / roster, within [0, 100] as long as the list holds no
      more submitted entries than the roster has students. */
  lemma AssignmentRowFacts(work: CourseWork, totalStudents: nat, entries: seq<WorkEntry>)
    ensures var row := AssignmentRow(work, totalStudents, entries);
            && row.submittedCount + row.missingCount == totalStudents == row.totalStudents
            && row.lateCount <= row.submittedCount
            && (totalStudents == 0 ==> row.submissionRate == 0.0)
            && (totalStudents > 0 ==> row.submissionRate * (totalStudents as real) == 100.0 * (row.submittedCount as real))
            && (row.submittedCount <= totalStudents ==> 0.0 <= row.submissionRate <= 100.0)
  {
    if totalStudents > 0 {
      RateArithmetic(SubmittedIn(Lookup(entries, work.id)), totalStudents);
    }
  }

  /** The rate is not clamped: a list holding more submitted entries than the
      roster has students (a submission by someone no longer enrolled) gives
      a rate above 100 and a negative missing count. */
  lemma AssignmentRateCanExceedHundred(work: CourseWork, a: Submission, b: Submission)
    requires IsSubmitted(a) && IsSubmitted(b)
    ensures AssignmentRow(work, 1, [WorkEntry(work.id, [a, b])]).submissionRate == 200.0
    ensures AssignmentRow(work, 1, [WorkEntry(work.id, [a, b])]).missingCount == -1
  {
    var subs := [a, b];
    assert Lookup([WorkEntry(work.id, subs)], work.id) == subs;
    assert subs[..1] == [a] && [a][..0] == [];
    assert SubmittedIn(subs) == 2;
  }

  // =====================================================================
  // computeStudentProgress
  // =====================================================================

  /** The row of one student: the coursework whose first entry by the
      student is submitted, the rest as missing, the late ones among them,
      the rounded percentage (0 without coursework), the most recent update
      time among the counted submissions, and the three-tier status. */
  function StudentRow(student: Person, courseWork: seq<CourseWork>, entries: seq<WorkEntry>): StudentAnalytics
  {
    var total := |courseWork|;
    var submitted := StudentSubmittedCount(student.userId, courseWork, entries);
    var percentage := Percent(submitted, total);
    StudentAnalytics(
      student.userId, DisplayName(student.fullName, "Unknown Student"), student.email, student.photoUrl,
      percentage, submitted, total - submitted, StudentLateCount(student.userId, courseWork, entries),
      Latest(StudentTimes(student.userId, courseWork, entries)), Classify(percentage))
  }

  /** How the per-student counts grow by one piece of coursework. */
  lemma StudentStep(userId: string, courseWork: seq<CourseWork>, entries: seq<WorkEntry>, j: nat)
    requires j < |courseWork|
    ensures var counted := CountedFor(Lookup(entries, courseWork[j].id), userId);
            && StudentSubmittedCount(userId, courseWork[..j + 1], entries)
               == StudentSubmittedCount(userId, courseWork[..j], entries) + (if counted.Some? then 1 else 0)
            && StudentLateCount(userId, courseWork[..j + 1], entries)
               == StudentLateCount(userId, courseWork[..j], entries) + (if counted.Some? && counted.value.late then 1 else 0)
            && StudentTimes(userId, courseWork[..j + 1], entries)
               == StudentTimes(userId, courseWork[..j], entries) + (if counted.Some? then [counted.value.updateTime] else [])
  {
    var p := courseWork[..j + 1];
    assert p[..j] == courseWork[..j];
    assert p[|p| - 1] == courseWork[j];
  }

  /** The counts, the most recent time and the status of one student in one
      course, as a loop over the coursework. */
  method StudentTotals(userId: string, courseWork: seq<CourseWork>, submissionsByWork: SubmissionsByWork)
    returns (submittedCount: nat, lateCount: nat, lastSubmissionDate: Option<string>)
    ensures submittedCount == StudentSubmittedCount(userId, courseWork, submissionsByWork)
    ensures lateCount == StudentLateCount(userId, courseWork, submissionsByWork)
    ensures lastSubmissionDate == Latest(StudentTimes(userId, courseWork, submissionsByWork))
  {
    submittedCount, lateCount, lastSubmissionDate := 0, 0, None;
    for j := 0 to |courseWork|
      invariant submittedCount == StudentSubmittedCount(userId, courseWork[..j], submissionsByWork)
      invariant lateCount == StudentLateCount(userId, courseWork[..j], submissionsByWork)
      invariant lastSubmissionDate == Latest(StudentTimes(userId, courseWork[..j], submissionsByWork))
    {
      ghost var times := StudentTimes(userId, courseWork[..j], submissionsByWork);
      StudentStep(userId, courseWork, submissionsByWork, j);
      assert times + [] == times;
      var submissions := Lookup(submissionsByWork, courseWork[j].id);
      var studentSub := FindFor(submissions, userId);
      if studentSub.Some? {
        var sub := studentSub.value;
        if IsSubmitted(sub) {
          submittedCount := submittedCount + 1;
          if sub.late {
            lateCount := lateCount + 1;
          }
          LatestFromSnoc(None, times, sub.updateTime);
          if sub.updateTime != "" {
            if lastSubmissionDate.None? || LexLess(lastSubmissionDate.value, sub.updateTime) {
              lastSubmissionDate := Some(sub.updateTime);
            }
          }
        }
      }
    }
    assert courseWork[..|courseWork|] == courseWork;
  }

  method ComputeStudentProgress(students: seq<Person>, courseWork: seq<CourseWork>, submissionsByWork: SubmissionsByWork)
    returns (rows: seq<StudentAnalytics>)
    ensures |rows| == |students|
    ensures forall i :: 0 <= i < |students| ==> rows[i] == StudentRow(students[i], courseWork, submissionsByWork)
  {
    rows := [];
    for i := 0 to |students|
      invariant |rows| == i
      invariant forall k :: 0 <= k < i ==> rows[k] == StudentRow(students[k], courseWork, submissionsByWork)
    {
      var row := StudentProgressRow(students[i], courseWork, submissionsByWork);
      rows := rows + [row];
    }
  }

  /** One student's row of the progress table. */
  method StudentProgressRow(student: Person, courseWork: seq<CourseWork>, submissionsByWork: SubmissionsByWork)
    returns (row: StudentAnalytics)
    ensures row == StudentRow(student, courseWork, submissionsByWork)
  {
    var totalAssignments := |courseWork|;
    var submittedCount, lateCount, lastSubmissionDate := StudentTotals(student.userId, courseWork, submissionsByWork);
    var missingCount := totalAssignments - submittedCount;
    var submissionPercentage := if totalAssignments > 0 then RoundPercent(submittedCount, totalAssignments) else 0;
    var status;
    if submissionPercentage >= 80 {
      status := Good;
    } else if submissionPercentage >= 50 {
      status := AtRisk;
    } else {
      status := Inactive;
    }
    row := StudentAnalytics(
      student.userId, DisplayName(student.fullName, "Unknown Student"), student.email, student.photoUrl,
      submissionPercentage, submittedCount, missingCount, lateCount, lastSubmissionDate, status);
  }

  /** Per student: submitted plus missing is the number of assignments,
      submitted lies between 0 and that number, late never exceeds
      submitted, the percentage lies in [0, 100] and is 0 without
      assignments, and the status is good from 80, at-risk from 50 and
      inactive below. */
  lemma StudentRowFacts(student: Person, courseWork: seq<CourseWork>, entries: seq<WorkEntry>)
    ensures var row := StudentRow(student, courseWork, entries);
            && row.submittedCount + row.missingCount == |courseWork|
            && 0 <= row.missingCount
            && row.lateCount <= row.submittedCount <= |courseWork|
            && row.submissionPercentage <= 100
            && (|courseWork| == 0 ==> row.submissionPercentage == 0)
            && (row.status == Good <==> row.submissionPercentage >= 80)
            && (row.status == AtRisk <==> 50 <= row.submissionPercentage < 80)
            && (row.status == Inactive <==> row.submissionPercentage < 50)
  {
  }

  lemma {:induction false} StudentTimesCover(userId: string, courseWork: seq<CourseWork>, entries: seq<WorkEntry>, k: nat)
    requires k < |courseWork|
    requires CountedFor(Lookup(entries, courseWork[k].id), userId).Some?
    ensures CountedFor(Lookup(entries, courseWork[k].id), userId).value.updateTime in StudentTimes(userId, courseWork, entries)
  {
    var init := courseWork[..|courseWork| - 1];
    if k < |courseWork| - 1 {
      assert init[k] == courseWork[k];
      StudentTimesCover(userId, init, entries, k);
    }
  }

  /** The last submission date is absent exactly when no counted submission
      has an update time; otherwise it is the update time of one of the
      student's submitted entries, and no counted submission is
      lexicographically later. */
  lemma LastSubmissionIsMostRecent(student: Person, courseWork: seq<CourseWork>, entries: seq<WorkEntry>)
    ensures var last := StudentRow(student, courseWork, entries).lastSubmissionDate;
            && (last.None? <==> forall k :: 0 <= k < |courseWork| && CountedFor(Lookup(entries, courseWork[k].id), student.userId).Some?
                                   ==> CountedFor(Lookup(entries, courseWork[k].id), student.userId).value.updateTime == "")
            && (last.Some? ==> exists k, s :: 0 <= k < |courseWork| && s in Lookup(entries, courseWork[k].id)
                                              && s.userId == student.userId && IsSubmitted(s) && s.updateTime == last.value)
            && (last.Some? ==> forall k :: 0 <= k < |courseWork| && CountedFor(Lookup(entries, courseWork[k].id), student.userId).Some?
                                   ==> !LexLess(last.value, CountedFor(Lookup(entries, courseWork[k].id), student.userId).value.updateTime))
  {
    var id := student.userId;
    var ts := StudentTimes(id, courseWork, entries);
    LatestFromIsMaximum(None, ts);
    var last := Latest(ts);
    forall k | 0 <= k < |courseWork| && CountedFor(Lookup(entries, courseWork[k].id), id).Some?
      ensures CountedFor(Lookup(entries, courseWork[k].id), id).value.updateTime in ts
    {
      StudentTimesCover(id, courseWork, entries, k);
    }
    if last.Some? {
      var i :| 0 <= i < |ts| && ts[i] == last.value;
      StudentTimesFromSubmissions(id, courseWork, entries, i);
    } else {
      forall k | 0 <= k < |courseWork| && CountedFor(Lookup(entries, courseWork[k].id), id).Some?
        ensures CountedFor(Lookup(entries, courseWork[k].id), id).value.updateTime == ""
      {
        var t := CountedFor(Lookup(entries, courseWork[k].id), id).value.updateTime;
        assert t in ts;
      }
    }
    if forall k :: (0 <= k < |courseWork| && CountedFor(Lookup(entries, courseWork[k].id), id).Some?)
                     ==> CountedFor(Lookup(entries, courseWork[k].id), id).value.updateTime == "" {
      forall i | 0 <= i < |ts|
        ensures ts[i] == ""
      {
        StudentTimesFromSubmissions(id, courseWork, entries, i);
        StudentTimesAreCounted(id, courseWork, entries, i);
      }
    }
  }

  /** Each counted time is the time of the counted submission of some piece
      of coursework. */
  lemma {:induction false} StudentTimesAreCounted(userId: string, courseWork: seq<CourseWork>, entries: seq<WorkEntry>, i: nat)
    requires i < |StudentTimes(userId, courseWork, entries)|
    ensures exists k :: 0 <= k < |courseWork| && CountedFor(Lookup(entries, courseWork[k].id), userId).Some?
                        && CountedFor(Lookup(entries, courseWork[k].id), userId).value.updateTime == StudentTimes(userId, courseWork, entries)[i]
  {
    var init := courseWork[..|courseWork| - 1];
    if i < |StudentTimes(userId, init, entries)| {
      StudentTimesAreCounted(userId, init, entries, i);
      var k :| 0 <= k < |init| && CountedFor(Lookup(entries, init[k].id), userId).Some?
               && CountedFor(Lookup(entries, init[k].id), userId).value.updateTime == StudentTimes(userId, init, entries)[i];
      assert courseWork[k] == init[k];
    } else {
      var last := |courseWork| - 1;
      assert CountedFor(Lookup(entries, courseWork[last].id), userId).Some?;
    }
  }

  // =====================================================================
  // getCourseAnalytics, the computing half
  // =====================================================================

  function StudentRows(students: seq<Person>, courseWork: seq<CourseWork>, entries: seq<WorkEntry>): seq<StudentAnalytics>
  {
    seq(|students|, i requires 0 <= i < |students| => StudentRow(students[i], courseWork, entries))
  }

  /** The analytics of one course when its engagement series can be built. */
  function CourseAnalyticsValue(courseId: string, courseName: string, courseWork: seq<CourseWork>, students: seq<Person>,
                                entries: seq<WorkEntry>, now: int, today: int): CourseAnalytics
  {
    CourseAnalytics(courseId, courseName,
                    SummaryOf(courseWork, students, entries, now),
                    Series(EntrySubs(entries), today),
                    AssignmentRows(courseWork, |students|, entries),
                    StudentRows(students, courseWork, entries))
  }

  /** The four computations in the order the service runs them; the
      engagement failure aborts the whole course. */
  method CourseAnalyticsOf(courseId: string, courseName: string, courseWork: seq<CourseWork>, students: seq<Person>,
                           submissionsByWork: SubmissionsByWork, now: int, today: int)
    returns (result: Result<CourseAnalytics>)
    ensures result.Err? <==> HasUnparseable(EntrySubs(submissionsByWork))
    ensures result.Ok? ==>
              result.value == CourseAnalyticsValue(courseId, courseName, courseWork, students, submissionsByWork, now, today)
  {
    var summary := ComputeSummary(courseWork, students, submissionsByWork, now);
    var engagement := ComputeEngagementData(submissionsByWork, today);
    if engagement.Err? {
      return Err(engagement.error);
    }
    var assignmentStats := ComputeAssignmentStats(courseWork, |students|, submissionsByWork);
    var studentProgress := ComputeStudentProgress(students, courseWork, submissionsByWork);
    result := Ok(CourseAnalytics(courseId, courseName, summary, engagement.value, assignmentStats, studentProgress));
  }
}
