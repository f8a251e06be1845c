/** The school-wide list of students needing support: each student's
    counts summed over every course that lists them, classified, the good
    ones dropped, and the rest ordered by rising submission percentage. */
module AdminAtRisk {
  import opened Common
  import opened Snapshot
  import opened AnalyticsTypes
  import opened StableSort
  import opened AdminOverview
  import opened Rosters
  import ClassroomAnalytics

  /** An entry of the student record. */
  datatype StudentEntry = StudentEntry(
    userId: string,
    name: string,
    email: Option<string>,
    photoUrl: Option<string>,
    totalAssignments: nat,
    submittedCount: nat,
    lateCount: nat,
    lastSubmission: Option<string>)

  /** A fresh entry, before any course is counted. */
  function Fresh(student: Person): StudentEntry
  {
    StudentEntry(student.userId, DisplayName(student.fullName, "Unknown Student"), student.email, student.photoUrl, 0, 0, 0, None)
  }

  /** One course added to an entry: its coursework to the total, the
      student's turned-in and late work to the counts, and its update times
      to the running latest time. */
  function Accumulated(e: StudentEntry, cd: CourseData): StudentEntry
  {
    var id := e.userId;
    e.(totalAssignments := e.totalAssignments + |cd.courseWork|,
       submittedCount := e.submittedCount + StudentSubmittedCount(id, cd.courseWork, cd.submissionsByWork),
       lateCount := e.lateCount + StudentLateCount(id, cd.courseWork, cd.submissionsByWork),
       lastSubmission := LatestFrom(e.lastSubmission, StudentTimes(id, cd.courseWork, cd.submissionsByWork)))
  }

  /** The entry of `student` after the given courses, in order. */
  function Tally(student: Person, courses: seq<CourseData>): StudentEntry
  {
    if |courses| == 0 then Fresh(student)
    else Accumulated(Tally(student, courses[..|courses| - 1]), courses[|courses| - 1])
  }

  /** The row of one entry: the rounded percentage (0 without coursework)
      and its status. */
  function AtRiskRow(e: StudentEntry): StudentAnalytics
  {
    var pct := Percent(e.submittedCount, e.totalAssignments);
    StudentAnalytics(e.userId, e.name, e.email, e.photoUrl, pct, e.submittedCount,
                     e.totalAssignments - e.submittedCount, e.lateCount, e.lastSubmission, Classify(pct))
  }

  /** One row per student of the school, in order of first appearance. */
  function SchoolStudentRows(cds: seq<CourseData>): seq<StudentAnalytics>
  {
    var links := Links(cds, Student);
    var first := FirstLinks(links);
    seq(|first|, i requires 0 <= i < |first| => AtRiskRow(Tally(first[i].person, CoursesFor(links, LinkId(first[i])))))
  }

  /** `.filter(s => s.status === 'at-risk' || s.status === 'inactive')`. */
  function Flagged(rows: seq<StudentAnalytics>): seq<StudentAnalytics>
  {
    if |rows| == 0 then []
    else
      var r := rows[|rows| - 1];
      Flagged(rows[..|rows| - 1]) + (if r.status != Good then [r] else [])
  }

  function Pct(r: StudentAnalytics): int
  {
    r.submissionPercentage as int
  }

  function RowId(r: StudentAnalytics): string
  {
    r.userId
  }

  /** `identifyAtRiskStudents`. */
  function AtRiskStudents(cds: seq<CourseData>): seq<StudentAnalytics>
  {
    SortBy(Flagged(SchoolStudentRows(cds)), Pct)
  }

  // ---------------------------------------------------------------------
  // Building the student record
  // ---------------------------------------------------------------------

  /** `if (!studentMap[id]) studentMap[id] = { ...zeros }`. */
  function Opened(m: map<string, StudentEntry>, student: Person): (r: map<string, StudentEntry>)
    ensures student.userId in r
  {
    if student.userId in m then m else m[student.userId := Fresh(student)]
  }

  /** The entry after opening it and adding the course. */
  function Recorded(m: map<string, StudentEntry>, l: Link): map<string, StudentEntry>
  {
    var m1 := Opened(m, l.person);
    m1[LinkId(l) := Accumulated(m1[LinkId(l)], l.course)]
  }

  function KeysAfter(m: map<string, StudentEntry>, ids: seq<string>, l: Link): seq<string>
  {
    if LinkId(l) in m then ids else ids + [LinkId(l)]
  }

  lemma TallySnoc(student: Person, courses: seq<CourseData>, cd: CourseData)
    ensures Tally(student, courses + [cd]) == Accumulated(Tally(student, courses), cd)
  {
    assert (courses + [cd])[..|courses|] == courses;
  }

  /** A student seen for the first time gets the tally of that one course. */
  lemma RecordStepNew(m: map<string, StudentEntry>, ids: seq<string>, links: seq<Link>, l: Link)
    requires Keyed(m, ids, links, Tally)
    requires LinkId(l) !in m
    ensures Keyed(Recorded(m, l), ids + [LinkId(l)], links + [l], Tally)
  {
    TallySnoc(l.person, [], l.course);
    assert [] + [l.course] == [l.course];
    assert Recorded(m, l) == m[LinkId(l) := Tally(l.person, [l.course])];
    KeyedNew(m, ids, links, Tally, l);
  }

  /** A student seen before has the new course added to their tally. */
  lemma RecordStepOld(m: map<string, StudentEntry>, ids: seq<string>, links: seq<Link>, l: Link)
    requires Keyed(m, ids, links, Tally)
    requires LinkId(l) in m
    ensures Keyed(Recorded(m, l), ids, links + [l], Tally)
  {
    var id := LinkId(l);
    var first := FirstLinks(links);
    var v := Accumulated(m[id], l.course);
    forall k | 0 <= k < |ids| && ids[k] == id
      ensures v == Tally(first[k].person, CoursesFor(links, id) + [l.course])
    {
      TallySnoc(first[k].person, CoursesFor(links, id), l.course);
    }
    assert Recorded(m, l) == m[id := v];
    KeyedOld(m, ids, links, Tally, l, v);
  }

  /** One student appearance keeps the record in step with the appearances. */
  lemma RecordStep(m: map<string, StudentEntry>, ids: seq<string>, links: seq<Link>, l: Link)
    requires Keyed(m, ids, links, Tally)
    ensures Keyed(Recorded(m, l), KeysAfter(m, ids, l), links + [l], Tally)
  {
    if LinkId(l) !in m {
      RecordStepNew(m, ids, links, l);
    } else {
      RecordStepOld(m, ids, links, l);
    }
  }

  /** The inner loop over one course's coursework for one student entry. */
  method AccumulateCourse(e: StudentEntry, cd: CourseData) returns (s: StudentEntry)
    ensures s == Accumulated(e, cd)
  {
    var id := e.userId;
    var courseWork := cd.courseWork;
    var submittedCount, lateCount, lastSubmission := e.submittedCount, e.lateCount, e.lastSubmission;
    for j := 0 to |courseWork|
      invariant submittedCount == e.submittedCount + StudentSubmittedCount(id, courseWork[..j], cd.submissionsByWork)
      invariant lateCount == e.lateCount + StudentLateCount(id, courseWork[..j], cd.submissionsByWork)
      invariant lastSubmission == LatestFrom(e.lastSubmission, StudentTimes(id, courseWork[..j], cd.submissionsByWork))
    {
      ghost var times := StudentTimes(id, courseWork[..j], cd.submissionsByWork);
      ClassroomAnalytics.StudentStep(id, courseWork, cd.submissionsByWork, j);
      assert times + [] == times;
      var submissions := Lookup(cd.submissionsByWork, courseWork[j].id);
      var studentSub := FindFor(submissions, id);
      if studentSub.Some? {
        var sub := studentSub.value;
        if IsSubmitted(sub) {
          submittedCount := submittedCount + 1;
          if sub.late {
            lateCount := lateCount + 1;
          }
          LatestFromSnoc(e.lastSubmission, times, sub.updateTime);
          if sub.updateTime != "" {
            if lastSubmission.None? || LexLess(lastSubmission.value, sub.updateTime) {
              lastSubmission := Some(sub.updateTime);
            }
          }
        }
      }
    }
    assert courseWork[..|courseWork|] == courseWork;
    s := e.(totalAssignments := e.totalAssignments + |courseWork|, submittedCount := submittedCount,
            lateCount := lateCount, lastSubmission := lastSubmission);
  }

  /** The body of the first loop: record one student of one course. */
  method RecordStudent(studentMap: map<string, StudentEntry>, ids: seq<string>, student: Person, cd: CourseData, ghost links: seq<Link>)
    returns (studentMap': map<string, StudentEntry>, ids': seq<string>)
    requires Keyed(studentMap, ids, links, Tally)
    ensures Keyed(studentMap', ids', links + [Link(student, cd)], Tally)
  {
    RecordStep(studentMap, ids, links, Link(student, cd));
    studentMap', ids' := studentMap, ids;
    if student.userId !in studentMap' {
      studentMap' := studentMap'[student.userId := Fresh(student)];
      ids' := ids' + [student.userId];
    }
    var s := AccumulateCourse(studentMap'[student.userId], cd);
    studentMap' := studentMap'[student.userId := s];
    assert studentMap' == Recorded(studentMap, Link(student, cd));
  }

  /** The inner loop of the first loop: record every student of one course. */
  method RecordCourse(studentMap: map<string, StudentEntry>, ids: seq<string>, cd: CourseData, ghost before: seq<Link>)
    returns (studentMap': map<string, StudentEntry>, ids': seq<string>)
    requires Keyed(studentMap, ids, before, Tally)
    ensures Keyed(studentMap', ids', before + Appearances(cd.students, cd), Tally)
  {
    studentMap', ids' := studentMap, ids;
    ghost var here := Appearances(cd.students, cd);
    assert before + here[..0] == before;
    for j := 0 to |cd.students|
      invariant Keyed(studentMap', ids', before + here[..j], Tally)
    {
      assert before + here[..j + 1] == before + here[..j] + [Link(cd.students[j], cd)];
      studentMap', ids' := RecordStudent(studentMap', ids', cd.students[j], cd, before + here[..j]);
    }
    assert here[..|cd.students|] == here;
  }

  /** The first loop of `identifyAtRiskStudents`. */
  method BuildStudentRecord(courseData: seq<CourseData>) returns (studentMap: map<string, StudentEntry>, ids: seq<string>)
    ensures Keyed(studentMap, ids, Links(courseData, Student), Tally)
  {
    studentMap, ids := map[], [];
    for c := 0 to |courseData|
      invariant Keyed(studentMap, ids, Links(courseData[..c], Student), Tally)
    {
      studentMap, ids := RecordCourse(studentMap, ids, courseData[c], Links(courseData[..c], Student));
      LinksCourse(courseData, Student, c);
    }
    assert courseData[..|courseData|] == courseData;
  }

  // ---------------------------------------------------------------------
  // The list
  // ---------------------------------------------------------------------

  /** One entry's row: its percentage and the status the thresholds give it. */
  method StudentRowOf(e: StudentEntry) returns (row: StudentAnalytics)
    ensures row == AtRiskRow(e)
  {
    var submissionPercentage := if e.totalAssignments > 0 then RoundPercent(e.submittedCount, e.totalAssignments) else 0;
    var status;
    if submissionPercentage >= 80 {
      status := Good;
    } else if submissionPercentage >= 50 {
      status := AtRisk;
    } else {
      status := Inactive;
    }
    row := StudentAnalytics(e.userId, e.name, e.email, e.photoUrl, submissionPercentage, e.submittedCount,
                            e.totalAssignments - e.submittedCount, e.lateCount, e.lastSubmission, status);
  }

  /** The rows are the record's entries, each turned into a row, in key order. */
  lemma RowsFromRecord(cds: seq<CourseData>, m: map<string, StudentEntry>, ids: seq<string>)
    requires Keyed(m, ids, Links(cds, Student), Tally)
    ensures |SchoolStudentRows(cds)| == |ids|
    ensures forall k :: 0 <= k < |ids| ==> ids[k] in m && SchoolStudentRows(cds)[k] == AtRiskRow(m[ids[k]])
  {
    KeyedAt(m, ids, Links(cds, Student), Tally);
  }

  /** `Object.values(studentMap).map(...)`. */
  method RowsOf(studentMap: map<string, StudentEntry>, ids: seq<string>) returns (rows: seq<StudentAnalytics>)
    requires forall k :: 0 <= k < |ids| ==> ids[k] in studentMap
    ensures |rows| == |ids|
    ensures forall k :: 0 <= k < |ids| ==> rows[k] == AtRiskRow(studentMap[ids[k]])
  {
    rows := [];
    for i := 0 to |ids|
      invariant |rows| == i
      invariant forall k :: 0 <= k < i ==> rows[k] == AtRiskRow(studentMap[ids[k]])
    {
      var row := StudentRowOf(studentMap[ids[i]]);
      rows := rows + [row];
    }
  }

  /** `.filter(...)`. */
  method FilterFlagged(rows: seq<StudentAnalytics>) returns (flagged: seq<StudentAnalytics>)
    ensures flagged == Flagged(rows)
  {
    flagged := [];
    for i := 0 to |rows|
      invariant flagged == Flagged(rows[..i])
    {
      assert rows[..i + 1][..i] == rows[..i];
      if rows[i].status == AtRisk || rows[i].status == Inactive {
        flagged := flagged + [rows[i]];
      }
    }
    assert rows[..|rows|] == rows;
  }

  method IdentifyAtRiskStudents(courseData: seq<CourseData>) returns (result: seq<StudentAnalytics>)
    ensures result == AtRiskStudents(courseData)
  {
    var studentMap, ids := BuildStudentRecord(courseData);
    RowsFromRecord(courseData, studentMap, ids);
    var rows := RowsOf(studentMap, ids);
    assert rows == SchoolStudentRows(courseData);
    var flagged := FilterFlagged(rows);
    result := SortBy(flagged, Pct);
  }

  // ---------------------------------------------------------------------
  // Properties
  // ---------------------------------------------------------------------

  /** The turned-in times of a student over several courses, in order. */
  ghost function SchoolTimes(userId: string, courses: seq<CourseData>): seq<string>
  {
    if |courses| == 0 then []
    else
      var cd := courses[|courses| - 1];
      SchoolTimes(userId, courses[..|courses| - 1]) + StudentTimes(userId, cd.courseWork, cd.submissionsByWork)
  }

  /** A tally keeps the student's identity, totals the coursework of its
      courses, never counts more turned in than assigned nor more late than
      turned in, and holds the latest turned-in time over all its courses. */
  lemma {:induction false} TallyFacts(student: Person, courses: seq<CourseData>)
    ensures var e := Tally(student, courses);
            && e.userId == student.userId
            && e.name == DisplayName(student.fullName, "Unknown Student")
            && e.email == student.email && e.photoUrl == student.photoUrl
            && e.totalAssignments == AssignmentTotal(courses)
            && e.submittedCount <= e.totalAssignments
            && e.lateCount <= e.submittedCount
            && e.lastSubmission == Latest(SchoolTimes(student.userId, courses))
  {
    if |courses| > 0 {
      var init, cd := courses[..|courses| - 1], courses[|courses| - 1];
      TallyFacts(student, init);
      LatestFromConcat(None, SchoolTimes(student.userId, init), StudentTimes(student.userId, cd.courseWork, cd.submissionsByWork));
    }
  }

  /** A row's counts add up to the assigned total, its percentage is a
      percentage, and its status is `good` from 80 up, `inactive` below 50;
      a student with nothing assigned is inactive and one who turned in
      everything assigned is good. */
  lemma AtRiskRowFacts(e: StudentEntry)
    requires e.submittedCount <= e.totalAssignments
    ensures var r := AtRiskRow(e);
            && r.missingCount >= 0
            && r.submittedCount + r.missingCount == e.totalAssignments
            && r.submissionPercentage <= 100
            && (r.status == Good <==> r.submissionPercentage >= 80)
            && (r.status == Inactive <==> r.submissionPercentage < 50)
            && (e.totalAssignments == 0 ==> r.status == Inactive)
            && (0 < e.totalAssignments == e.submittedCount ==> r.status == Good)
  {
  }

  /** The i-th row is the student first met at the i-th appearance: a
      student of the school, whose counts cover exactly the courses listing
      them and whose last submission is their latest turned-in time there. */
  lemma SchoolRowFacts(cds: seq<CourseData>, i: nat)
    requires i < |SchoolStudentRows(cds)|
    ensures var links := Links(cds, Student);
            var first := FirstLinks(links);
            var id := LinkId(first[i]);
            var courses := CoursesFor(links, id);
            var r := SchoolStudentRows(cds)[i];
            && r.userId == id
            && id in StudentIds(cds)
            && (forall cd :: cd in courses <==> cd in cds && id in PersonIds(cd.students))
            && r.missingCount >= 0
            && r.submittedCount + r.missingCount == AssignmentTotal(courses)
            && r.lateCount <= r.submittedCount
            && r.submissionPercentage <= 100
            && r.lastSubmissionDate == Latest(SchoolTimes(id, courses))
  {
    var links := Links(cds, Student);
    var first := FirstLinks(links);
    var id := LinkId(first[i]);
    TallyFacts(first[i].person, CoursesFor(links, id));
    AtRiskRowFacts(Tally(first[i].person, CoursesFor(links, id)));
    PeopleOf(cds, Student);
    CoursesForMembers(cds, Student, id);
  }

  /** There is one row per student of the school, and no two rows share a
      student. */
  lemma SchoolRowsDistinct(cds: seq<CourseData>)
    ensures var rows := SchoolStudentRows(cds);
            && DistinctKeys(rows, RowId)
            && (forall id :: id in StudentIds(cds) <==> exists i :: 0 <= i < |rows| && rows[i].userId == id)
            && |rows| == |StudentIds(cds)|
  {
    var links := Links(cds, Student);
    var first := FirstLinks(links);
    var rows := SchoolStudentRows(cds);
    forall i | 0 <= i < |rows|
      ensures rows[i].userId == LinkId(first[i])
    {
      TallyFacts(first[i].person, CoursesFor(links, LinkId(first[i])));
    }
    PeopleOf(cds, Student);
  }

  /** The filter keeps exactly the rows that are not good, in order, and
      so keeps students distinct. */
  lemma {:induction false} FlaggedFacts(rows: seq<StudentAnalytics>)
    ensures forall x :: x in Flagged(rows) <==> x in rows && x.status != Good
    ensures |Flagged(rows)| <= |rows|
    ensures DistinctKeys(rows, RowId) ==> DistinctKeys(Flagged(rows), RowId)
  {
    if |rows| > 0 {
      var init, r := rows[..|rows| - 1], rows[|rows| - 1];
      assert rows == init + [r];
      FlaggedFacts(init);
      if DistinctKeys(rows, RowId) {
        assert DistinctKeys(init, RowId);
        var f := Flagged(rows);
        forall i, j | 0 <= i < j < |f|
          ensures RowId(f[i]) != RowId(f[j])
        {
          if j == |f| - 1 && r.status != Good {
            assert f[j] == r;
            assert f[i] in init;
            var k :| 0 <= k < |init| && init[k] == f[i];
            assert rows[k] == f[i];
          } else {
            assert f[i] == Flagged(init)[i] && f[j] == Flagged(init)[j];
          }
        }
      }
    }
  }

  /** Every row carries the status its percentage gives. */
  lemma RowsClassified(cds: seq<CourseData>)
    ensures forall x :: x in SchoolStudentRows(cds) ==> x.status == Classify(x.submissionPercentage)
  {
    var rows := SchoolStudentRows(cds);
    forall x | x in rows
      ensures x.status == Classify(x.submissionPercentage)
    {
      var i :| 0 <= i < |rows| && rows[i] == x;
    }
  }

  /** `identifyAtRiskStudents` lists exactly the students of the school whose
      status is not good, which are those below 80 percent. */
  lemma AtRiskStudentsMembers(cds: seq<CourseData>)
    ensures var result := AtRiskStudents(cds);
            var rows := SchoolStudentRows(cds);
            && (forall x :: x in result <==> x in rows && x.status != Good)
            && (forall x :: x in result ==> x.submissionPercentage < 80)
  {
    var rows := SchoolStudentRows(cds);
    FlaggedFacts(rows);
    SortByMembers(Flagged(rows), Pct);
    RowsClassified(cds);
  }

  /** Each student is listed once at most, so the list is no longer than
      the number of students. */
  lemma AtRiskStudentsDistinct(cds: seq<CourseData>)
    ensures DistinctKeys(AtRiskStudents(cds), RowId)
    ensures |AtRiskStudents(cds)| <= |StudentIds(cds)|
  {
    var rows := SchoolStudentRows(cds);
    var flagged := Flagged(rows);
    SchoolRowsDistinct(cds);
    FlaggedFacts(rows);
    PermutationDistinctKeys(flagged, SortBy(flagged, Pct), RowId);
  }

  /** The list rises by submission percentage, and students with the same
      percentage keep the order of the record. */
  lemma AtRiskStudentsOrder(cds: seq<CourseData>)
    ensures var result := AtRiskStudents(cds);
            && SortedBy(result, Pct)
            && (forall k :: WithKey(result, Pct, k) == WithKey(Flagged(SchoolStudentRows(cds)), Pct, k))
  {
    var flagged := Flagged(SchoolStudentRows(cds));
    SortBySorted(flagged, Pct);
    forall k
      ensures WithKey(SortBy(flagged, Pct), Pct, k) == WithKey(flagged, Pct, k)
    {
      SortByStable(flagged, Pct, k);
    }
  }

  /** A course without coursework lists every one of its students as
      inactive, while the overview of the same course counts none of them
      as at risk or inactive. */
  lemma NoCourseworkStudentsInactive(cd: CourseData)
    requires |cd.courseWork| == 0
    ensures forall x :: x in SchoolStudentRows([cd]) ==> x.status == Inactive && x in AtRiskStudents([cd])
    ensures OverviewOf([cd]).atRiskStudentsCount == 0 && OverviewOf([cd]).inactiveStudentsCount == 0
  {
    var rows := SchoolStudentRows([cd]);
    var links := Links([cd], Student);
    var first := FirstLinks(links);
    forall x | x in rows
      ensures x.status == Inactive
    {
      var i :| 0 <= i < |rows| && rows[i] == x;
      var id := LinkId(first[i]);
      var courses := CoursesFor(links, id);
      SchoolRowFacts([cd], i);
      NoCourseworkTotal(courses, cd);
      TallyFacts(first[i].person, courses);
      AtRiskRowFacts(Tally(first[i].person, courses));
    }
    FlaggedFacts(rows);
    SortByMembers(Flagged(rows), Pct);
    NoCourseworkNeverFlagged(cd);
  }

  lemma {:induction false} NoCourseworkTotal(courses: seq<CourseData>, cd: CourseData)
    requires |cd.courseWork| == 0
    requires forall c :: c in courses ==> c in [cd]
    ensures AssignmentTotal(courses) == 0
  {
    if |courses| > 0 {
      assert courses[|courses| - 1] in courses;
      NoCourseworkTotal(courses[..|courses| - 1], cd);
    }
  }
}
