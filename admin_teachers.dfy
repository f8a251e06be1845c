/** One performance row per teacher of the administrator dashboard: the
    teacher record keyed by user id, then the pooled totals over each
    teacher's courses. */
module AdminTeachers {
  import opened Common
  import opened Snapshot
  import opened AnalyticsTypes
  import opened AdminOverview
  import opened Rosters
  import AdminPerformance

  /** An entry of the teacher record: identity from the first appearance,
      then every course that lists the teacher. */
  datatype TeacherEntry = TeacherEntry(
    userId: string,
    name: string,
    email: Option<string>,
    photoUrl: Option<string>,
    courses: seq<CourseData>)

  /** The entry of a teacher whose first appearance is `p`, with `courses`. */
  function Entry(p: Person, courses: seq<CourseData>): TeacherEntry
  {
    TeacherEntry(p.userId, DisplayName(p.fullName, "Unknown Teacher"), p.email, p.photoUrl, courses)
  }

  /** The row computed from one entry: totals pooled over its courses. */
  function TeacherRow(t: TeacherEntry): TeacherPerformance
  {
    var subs := SchoolSubs(t.courses);
    TeacherPerformance(
      t.userId, t.name, t.email, t.photoUrl, |t.courses|, |StudentIds(t.courses)|, AssignmentTotal(t.courses),
      Percent(SubmittedIn(subs), ExpectedTotal(t.courses)), Percent(LateIn(subs), SubmittedIn(subs)))
  }

  /** `computeTeacherPerformance`: one row per teacher, in order of first
      appearance. */
  function TeacherRows(cds: seq<CourseData>): seq<TeacherPerformance>
  {
    var links := Links(cds, Teacher);
    var first := FirstLinks(links);
    seq(|first|, i requires 0 <= i < |first| => TeacherRow(Entry(first[i].person, CoursesFor(links, LinkId(first[i])))))
  }

  // ---------------------------------------------------------------------
  // Building the teacher record
  // ---------------------------------------------------------------------

  /** `if (!teacherMap[id]) teacherMap[id] = { ..., courses: [] }`. */
  function Opened(m: map<string, TeacherEntry>, teacher: Person): (r: map<string, TeacherEntry>)
    ensures teacher.userId in r
  {
    if teacher.userId in m then m
    else m[teacher.userId := TeacherEntry(teacher.userId, DisplayName(teacher.fullName, "Unknown Teacher"), teacher.email, teacher.photoUrl, [])]
  }

  /** `teacherMap[id].courses.push(cd)` after opening the entry. */
  function Recorded(m: map<string, TeacherEntry>, l: Link): map<string, TeacherEntry>
  {
    var m1 := Opened(m, l.person);
    m1[LinkId(l) := m1[LinkId(l)].(courses := m1[LinkId(l)].courses + [l.course])]
  }

  function KeysAfter(m: map<string, TeacherEntry>, ids: seq<string>, l: Link): seq<string>
  {
    if LinkId(l) in m then ids else ids + [LinkId(l)]
  }

  /** One teacher appearance keeps the record in step with the appearances. */
  lemma RecordStep(m: map<string, TeacherEntry>, ids: seq<string>, links: seq<Link>, l: Link)
    requires Keyed(m, ids, links, Entry)
    ensures Keyed(Recorded(m, l), KeysAfter(m, ids, l), links + [l], Entry)
  {
    var id := LinkId(l);
    if id !in m {
      assert [] + [l.course] == [l.course];
      assert Recorded(m, l) == m[id := Entry(l.person, [l.course])];
      KeyedNew(m, ids, links, Entry, l);
    } else {
      KeyedOld(m, ids, links, Entry, l, m[id].(courses := m[id].courses + [l.course]));
    }
  }

  /** The body of the first loop: record one teacher of one course. */
  method RecordTeacher(teacherMap: map<string, TeacherEntry>, ids: seq<string>, teacher: Person, cd: CourseData, ghost links: seq<Link>)
    returns (teacherMap': map<string, TeacherEntry>, ids': seq<string>)
    requires Keyed(teacherMap, ids, links, Entry)
    ensures Keyed(teacherMap', ids', links + [Link(teacher, cd)], Entry)
  {
    RecordStep(teacherMap, ids, links, Link(teacher, cd));
    teacherMap', ids' := teacherMap, ids;
    if teacher.userId !in teacherMap' {
      teacherMap' := teacherMap'[teacher.userId := TeacherEntry(teacher.userId, DisplayName(teacher.fullName, "Unknown Teacher"),
                                                                teacher.email, teacher.photoUrl, [])];
      ids' := ids' + [teacher.userId];
    }
    teacherMap' := teacherMap'[teacher.userId := teacherMap'[teacher.userId].(courses := teacherMap'[teacher.userId].courses + [cd])];
    assert teacherMap' == Recorded(teacherMap, Link(teacher, cd));
  }

  /** The first loop of `computeTeacherPerformance`. */
  method BuildTeacherRecord(courseData: seq<CourseData>) returns (teacherMap: map<string, TeacherEntry>, ids: seq<string>)
    ensures Keyed(teacherMap, ids, Links(courseData, Teacher), Entry)
  {
    teacherMap, ids := map[], [];
    for c := 0 to |courseData|
      invariant Keyed(teacherMap, ids, Links(courseData[..c], Teacher), Entry)
    {
      var cd := courseData[c];
      ghost var before := Links(courseData[..c], Teacher);
      ghost var here := Appearances(cd.teachers, cd);
      assert before + here[..0] == before;
      for j := 0 to |cd.teachers|
        invariant Keyed(teacherMap, ids, before + here[..j], Entry)
      {
        assert before + here[..j + 1] == before + here[..j] + [Link(cd.teachers[j], cd)];
        teacherMap, ids := RecordTeacher(teacherMap, ids, cd.teachers[j], cd, before + here[..j]);
      }
      assert here[..|cd.teachers|] == here;
      LinksCourse(courseData, Teacher, c);
    }
    assert courseData[..|courseData|] == courseData;
  }

  // ---------------------------------------------------------------------
  // Rows
  // ---------------------------------------------------------------------

  /** The turned-in and late entries of one course. */
  method CountSubmitted(cd: CourseData) returns (submitted: nat, late: nat)
    ensures submitted == SubmittedIn(WorkSubs(cd.courseWork, cd.submissionsByWork))
    ensures late == LateIn(WorkSubs(cd.courseWork, cd.submissionsByWork))
  {
    submitted, late := 0, 0;
    var courseWork := cd.courseWork;
    for i := 0 to |courseWork|
      invariant submitted == SubmittedIn(WorkSubs(courseWork[..i], cd.submissionsByWork))
      invariant late == LateIn(WorkSubs(courseWork[..i], cd.submissionsByWork))
    {
      var submissions := Lookup(cd.submissionsByWork, courseWork[i].id);
      ghost var submitted0, late0 := submitted, late;
      for j := 0 to |submissions|
        invariant submitted == submitted0 + SubmittedIn(submissions[..j])
        invariant late == late0 + LateIn(submissions[..j])
      {
        assert submissions[..j + 1][..j] == submissions[..j];
        if IsSubmitted(submissions[j]) {
          submitted := submitted + 1;
          if submissions[j].late {
            late := late + 1;
          }
        }
      }
      assert submissions[..|submissions|] == submissions;
      AdminPerformance.WorkSubsStep(courseWork, cd.submissionsByWork, i);
      CountsOfConcat(WorkSubs(courseWork[..i], cd.submissionsByWork), submissions);
    }
    assert courseWork[..|courseWork|] == courseWork;
  }

  /** The row of one teacher entry, as the mapping step computes it. */
  method TeacherStats(teacher: TeacherEntry) returns (row: TeacherPerformance)
    ensures row == TeacherRow(teacher)
  {
    var uniqueStudents: set<string> := {};
    var totalAssignments, totalSubmissions, expectedSubmissions, lateSubmissions := 0, 0, 0, 0;
    var courses := teacher.courses;
    for i := 0 to |courses|
      invariant uniqueStudents == StudentIds(courses[..i])
      invariant totalAssignments == AssignmentTotal(courses[..i])
      invariant expectedSubmissions == ExpectedTotal(courses[..i])
      invariant totalSubmissions == SubmittedIn(SchoolSubs(courses[..i]))
      invariant lateSubmissions == LateIn(SchoolSubs(courses[..i]))
    {
      Prefix(courses, i);
      var cd := courses[i];
      uniqueStudents := AddIds(uniqueStudents, cd.students);
      totalAssignments := totalAssignments + |cd.courseWork|;
      expectedSubmissions := expectedSubmissions + |cd.students| * |cd.courseWork|;
      var submitted, late := CountSubmitted(cd);
      CountsOfConcat(SchoolSubs(courses[..i]), WorkSubs(cd.courseWork, cd.submissionsByWork));
      totalSubmissions := totalSubmissions + submitted;
      lateSubmissions := lateSubmissions + late;
    }
    assert courses[..|courses|] == courses;
    var averageSubmissionRate := if expectedSubmissions > 0 then RoundPercent(totalSubmissions, expectedSubmissions) else 0;
    var averageLateRate := if totalSubmissions > 0 then RoundPercent(lateSubmissions, totalSubmissions) else 0;
    assert averageSubmissionRate == Percent(totalSubmissions, expectedSubmissions);
    assert averageLateRate == Percent(lateSubmissions, totalSubmissions);
    row := TeacherPerformance(teacher.userId, teacher.name, teacher.email, teacher.photoUrl, |courses|,
                              |uniqueStudents|, totalAssignments, averageSubmissionRate, averageLateRate);
  }

  /** The rows are the record's entries, each turned into a row, in key order. */
  lemma RowsFromRecord(cds: seq<CourseData>, m: map<string, TeacherEntry>, ids: seq<string>)
    requires Keyed(m, ids, Links(cds, Teacher), Entry)
    ensures |TeacherRows(cds)| == |ids|
    ensures forall k :: 0 <= k < |ids| ==> ids[k] in m && TeacherRows(cds)[k] == TeacherRow(m[ids[k]])
  {
    KeyedAt(m, ids, Links(cds, Teacher), Entry);
  }

  /** `Object.values(teacherMap).map(...)`. */
  method RowsOf(teacherMap: map<string, TeacherEntry>, ids: seq<string>) returns (rows: seq<TeacherPerformance>)
    requires forall k :: 0 <= k < |ids| ==> ids[k] in teacherMap
    ensures |rows| == |ids|
    ensures forall k :: 0 <= k < |ids| ==> rows[k] == TeacherRow(teacherMap[ids[k]])
  {
    rows := [];
    for i := 0 to |ids|
      invariant |rows| == i
      invariant forall k :: 0 <= k < i ==> rows[k] == TeacherRow(teacherMap[ids[k]])
    {
      var row := TeacherStats(teacherMap[ids[i]]);
      rows := rows + [row];
    }
  }

  method ComputeTeacherPerformance(courseData: seq<CourseData>) returns (rows: seq<TeacherPerformance>)
    ensures rows == TeacherRows(courseData)
  {
    var teacherMap, ids := BuildTeacherRecord(courseData);
    RowsFromRecord(courseData, teacherMap, ids);
    rows := RowsOf(teacherMap, ids);
  }

  // ---------------------------------------------------------------------
  // Properties
  // ---------------------------------------------------------------------

  /** The identity fields of each row are those of its first appearance. */
  lemma TeacherRowIdentity(cds: seq<CourseData>)
    ensures var rows := TeacherRows(cds);
            var first := FirstLinks(Links(cds, Teacher));
            && |rows| == |first|
            && forall i :: 0 <= i < |rows| ==>
                 && rows[i].userId == LinkId(first[i])
                 && rows[i].name == DisplayName(first[i].person.fullName, "Unknown Teacher")
                 && rows[i].email == first[i].person.email
                 && rows[i].photoUrl == first[i].person.photoUrl
  {
  }

  /** One row per teacher of the school: no teacher has two rows, and the
      rows are exactly the distinct teacher ids the overview counts. */
  lemma TeacherRowsAreTeachers(cds: seq<CourseData>)
    ensures var rows := TeacherRows(cds);
            && (forall i, j :: 0 <= i < j < |rows| ==> rows[i].userId != rows[j].userId)
            && (forall id :: id in TeacherIds(cds) <==> exists i :: 0 <= i < |rows| && rows[i].userId == id)
            && |rows| == |TeacherIds(cds)|
  {
    TeacherRowIdentity(cds);
    PeopleOf(cds, Teacher);
  }

  /** Each row's name, email and photo come from its teacher's first
      appearance. */
  lemma TeacherIdentityFromFirstAppearance(cds: seq<CourseData>, i: nat)
    requires i < |TeacherRows(cds)|
    ensures var row := TeacherRows(cds)[i];
            var links := Links(cds, Teacher);
            exists p :: 0 <= p < |links| && LinkId(links[p]) == row.userId
                        && row.name == DisplayName(links[p].person.fullName, "Unknown Teacher")
                        && row.email == links[p].person.email && row.photoUrl == links[p].person.photoUrl
                        && forall q :: 0 <= q < p ==> LinkId(links[q]) != row.userId
  {
    var links := Links(cds, Teacher);
    TeacherRowIdentity(cds);
    FirstLinksFacts(links);
    var first := FirstLinks(links);
    var p :| 0 <= p < |links| && links[p] == first[i] && forall q :: 0 <= q < p ==> LinkId(links[q]) != LinkId(first[i]);
  }

  /** Each row pools its teacher's courses: the courses are exactly those
      listing the teacher, the student count is of distinct students (never
      more than the roster entries of those courses), and the late rate lies
      in [0, 100]. */
  lemma TeacherRowFacts(cds: seq<CourseData>, i: nat)
    requires i < |TeacherRows(cds)|
    ensures var row := TeacherRows(cds)[i];
            var courses := CoursesFor(Links(cds, Teacher), row.userId);
            && row.coursesCount == |courses| >= 1
            && (forall cd :: cd in courses <==> cd in cds && row.userId in PersonIds(cd.teachers))
            && row.totalStudents == |StudentIds(courses)| <= RosterTotal(courses)
            && row.totalAssignments == AssignmentTotal(courses)
            && row.averageLateRate <= 100
            && (ExpectedTotal(courses) == 0 ==> row.averageSubmissionRate == 0)
  {
    var links := Links(cds, Teacher);
    var first := FirstLinks(links);
    var row := TeacherRows(cds)[i];
    var courses := CoursesFor(links, row.userId);
    CoursesForMembers(cds, Teacher, row.userId);
    DistinctIdsBound(courses);
    FirstLinksFacts(links);
    var p :| 0 <= p < |links| && links[p] == first[i] && forall q :: 0 <= q < p ==> LinkId(links[q]) != LinkId(first[i]);
    CoursesForOccurrence(links, p);
  }

  /** Every appearance contributes its course to that person's courses. */
  lemma {:induction false} CoursesForOccurrence(links: seq<Link>, p: nat)
    requires p < |links|
    ensures links[p].course in CoursesFor(links, LinkId(links[p]))
  {
    var init := links[..|links| - 1];
    if p < |links| - 1 {
      CoursesForOccurrence(init, p);
      assert init[p] == links[p];
    }
  }

  /** A teacher of a single course gets that course's own submission and
      late rates. */
  lemma SingleCourseTeacherMatchesCourse(p: Person, cd: CourseData)
    ensures var row := TeacherRow(Entry(p, [cd]));
            && row.coursesCount == 1
            && row.averageSubmissionRate == AdminPerformance.CourseRow(cd).submissionRate
            && row.averageLateRate == AdminPerformance.CourseRow(cd).lateRate
            && row.totalAssignments == AdminPerformance.CourseRow(cd).assignmentCount
            && row.totalStudents <= AdminPerformance.CourseRow(cd).studentCount
  {
    var courses := [cd];
    assert courses[..0] == [];
    assert SchoolSubs(courses) == WorkSubs(cd.courseWork, cd.submissionsByWork);
    assert ExpectedTotal(courses) == |cd.students| * |cd.courseWork|;
    assert AssignmentTotal(courses) == |cd.courseWork|;
    assert StudentIds(courses) == PersonIds(cd.students);
    PersonIdsBound(cd.students);
  }
}
