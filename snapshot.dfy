/** The in-memory snapshot both analytics services aggregate: courses, their
    rosters and coursework, and the submissions of each piece of coursework,
    together with the counts over submissions that both services share. */
module Snapshot {
  import opened Common

  /** Submission states. `Other` stands for every state the services do not
      name (RECLAIMED_BY_STUDENT, the unspecified state). */
  datatype SubmissionState = TurnedIn | Returned | New | Created | Other

  /** One student's submission for one piece of coursework.
      `updateTime` is the raw ISO-8601 text, "" when the provider omitted it
      (both are falsy in JavaScript). `updateDay` is the local calendar day
      (a day number) that `parseISO` gives for it, `None` when the text does
      not parse. */
  datatype Submission = Submission(
    userId: string,
    state: SubmissionState,
    late: bool,
    updateTime: string,
    updateDay: Option<int>)

  /** A piece of coursework. `dueMidnight` is the instant of local midnight
      at the start of the due date (`new Date(year, month - 1, day)`), `None`
      when the coursework has no due date. */
  datatype CourseWork = CourseWork(
    id: string,
    title: string,
    dueMidnight: Option<int>,
    maxPoints: Option<int>)

  /** A teacher or student. `fullName` is "" when the profile has no name. */
  datatype Person = Person(
    userId: string,
    fullName: string,
    email: Option<string>,
    photoUrl: Option<string>)

  datatype CourseState = Active | Archived | Provisioned | Declined | Suspended | Unspecified

  datatype Course = Course(id: string, name: string, state: CourseState)

  /** One key of the `submissionsByWork` record with its submissions. */
  datatype WorkEntry = WorkEntry(workId: string, submissions: seq<Submission>)

  predicate DistinctWorkIds(entries: seq<WorkEntry>)
  {
    forall i, j :: 0 <= i < j < |entries| ==> entries[i].workId != entries[j].workId
  }

  /** A JavaScript record from coursework id to submissions: its keys are
      distinct and kept in insertion order. */
  type SubmissionsByWork = entries: seq<WorkEntry> | DistinctWorkIds(entries) witness []

  /** Everything fetched for one course. */
  datatype CourseData = CourseData(
    course: Course,
    courseWork: seq<CourseWork>,
    students: seq<Person>,
    teachers: seq<Person>,
    submissionsByWork: SubmissionsByWork)

  /** `submissionsByWork[workId] || []`. */
  function Lookup(entries: seq<WorkEntry>, workId: string): (subs: seq<Submission>)
    ensures (forall i :: 0 <= i < |entries| ==> entries[i].workId != workId) ==> subs == []
    ensures DistinctWorkIds(entries) ==>
              forall i :: 0 <= i < |entries| && entries[i].workId == workId ==> subs == entries[i].submissions
  {
    if |entries| == 0 then []
    else if entries[0].workId == workId then entries[0].submissions
    else
      assert DistinctWorkIds(entries) ==> DistinctWorkIds(entries[1..]);
      assert forall i :: 1 <= i < |entries| ==> entries[i] == entries[1..][i - 1];
      Lookup(entries[1..], workId)
  }

  // ---------------------------------------------------------------------
  // Submission states
  // ---------------------------------------------------------------------

  /** `sub.state === 'TURNED_IN' || sub.state === 'RETURNED'`. */
  predicate IsSubmitted(s: Submission)
  {
    s.state == TurnedIn || s.state == Returned
  }

  /** `sub.state === 'NEW' || sub.state === 'CREATED'`. */
  predicate IsPending(s: Submission)
  {
    s.state == New || s.state == Created
  }

  /** Number of submitted (turned-in or returned) entries. */
  function SubmittedIn(subs: seq<Submission>): (n: nat)
    ensures n <= |subs|
  {
    if |subs| == 0 then 0
    else SubmittedIn(subs[..|subs| - 1]) + (if IsSubmitted(subs[|subs| - 1]) then 1 else 0)
  }

  /** Number of submitted entries flagged late. */
  function LateIn(subs: seq<Submission>): (n: nat)
    ensures n <= SubmittedIn(subs)
  {
    if |subs| == 0 then 0
    else
      var last := subs[|subs| - 1];
      LateIn(subs[..|subs| - 1]) + (if IsSubmitted(last) && last.late then 1 else 0)
  }

  /** Number of entries still NEW or CREATED. */
  function PendingIn(subs: seq<Submission>): (n: nat)
    ensures n + SubmittedIn(subs) <= |subs|
  {
    if |subs| == 0 then 0
    else PendingIn(subs[..|subs| - 1]) + (if IsPending(subs[|subs| - 1]) then 1 else 0)
  }

  lemma {:induction false} CountsOfConcat(a: seq<Submission>, b: seq<Submission>)
    ensures SubmittedIn(a + b) == SubmittedIn(a) + SubmittedIn(b)
    ensures LateIn(a + b) == LateIn(a) + LateIn(b)
  {
    if |b| > 0 {
      assert (a + b)[..|a + b| - 1] == a + b[..|b| - 1];
      CountsOfConcat(a, b[..|b| - 1]);
    } else {
      assert a + b == a;
    }
  }

  /** A pending entry exists exactly when the pending count is positive. */
  lemma {:induction false} PendingInPositive(subs: seq<Submission>)
    ensures PendingIn(subs) > 0 <==> exists k :: 0 <= k < |subs| && IsPending(subs[k])
  {
    if |subs| > 0 {
      var init := subs[..|subs| - 1];
      PendingInPositive(init);
      if exists k :: 0 <= k < |init| && IsPending(init[k]) {
        var k :| 0 <= k < |init| && IsPending(init[k]);
        assert subs[k] == init[k];
      }
      if exists k :: 0 <= k < |subs| && IsPending(subs[k]) {
        var k :| 0 <= k < |subs| && IsPending(subs[k]);
        if k < |subs| - 1 {
          assert init[k] == subs[k];
        }
      }
    }
  }

  // ---------------------------------------------------------------------
  // Coursework of one course
  // ---------------------------------------------------------------------

  /** The submission lists of `courseWork`, looked up in coursework order and
      concatenated. */
  function WorkSubs(courseWork: seq<CourseWork>, entries: seq<WorkEntry>): seq<Submission>
  {
    if |courseWork| == 0 then []
    else WorkSubs(courseWork[..|courseWork| - 1], entries) + Lookup(entries, courseWork[|courseWork| - 1].id)
  }

  /** The coursework has a due date whose local midnight lies strictly before `now`. */
  predicate Overdue(work: CourseWork, now: int)
  {
    work.dueMidnight.Some? && now > work.dueMidnight.value
  }

  /** NEW or CREATED submissions on overdue coursework. */
  function WorkMissing(courseWork: seq<CourseWork>, entries: seq<WorkEntry>, now: int): nat
  {
    if |courseWork| == 0 then 0
    else
      var work := courseWork[|courseWork| - 1];
      WorkMissing(courseWork[..|courseWork| - 1], entries, now)
        + (if Overdue(work, now) then PendingIn(Lookup(entries, work.id)) else 0)
  }

  // ---------------------------------------------------------------------
  // One student's submissions
  // ---------------------------------------------------------------------

  /** Index `k` holds the user's first entry: no earlier entry is theirs. */
  ghost predicate FirstEntryAt(subs: seq<Submission>, userId: string, k: int)
  {
    0 <= k < |subs| && subs[k].userId == userId
    && forall j :: 0 <= j < k ==> subs[j].userId != userId
  }

  /** A user has at most one first entry. */
  lemma FirstEntryUnique(subs: seq<Submission>, userId: string, k: int, k': int)
    requires FirstEntryAt(subs, userId, k) && FirstEntryAt(subs, userId, k')
    ensures k == k'
  {
  }

  /** `submissions.find(s => s.userId === userId)`: the first entry by that user. */
  function FindFor(subs: seq<Submission>, userId: string): (r: Option<Submission>)
    ensures r.None? <==> forall k :: 0 <= k < |subs| ==> subs[k].userId != userId
    ensures r.Some? ==> r.value in subs && r.value.userId == userId
    ensures r.Some? ==> exists k :: FirstEntryAt(subs, userId, k) && subs[k] == r.value
  {
    if |subs| == 0 then None
    else if subs[0].userId == userId then
      assert FirstEntryAt(subs, userId, 0);
      Some(subs[0])
    else
      assert forall k :: 1 <= k < |subs| ==> subs[k] == subs[1..][k - 1];
      var r := FindFor(subs[1..], userId);
      assert r.Some? ==> exists k :: FirstEntryAt(subs, userId, k) && subs[k] == r.value by {
        if r.Some? {
          var k :| FirstEntryAt(subs[1..], userId, k) && subs[1..][k] == r.value;
          assert FirstEntryAt(subs, userId, k + 1);
        }
      }
      r
  }

  /** The student's submission for one piece of coursework when the first
      entry by that student is turned in or returned; otherwise nothing. */
  function CountedFor(subs: seq<Submission>, userId: string): (r: Option<Submission>)
    ensures r.Some? ==> IsSubmitted(r.value) && r.value.userId == userId && r.value in subs
    ensures r.Some? <==> exists k :: FirstEntryAt(subs, userId, k) && IsSubmitted(subs[k])
    ensures r.Some? ==> exists k :: FirstEntryAt(subs, userId, k) && subs[k] == r.value
  {
    var f := FindFor(subs, userId);
    assert (exists k :: FirstEntryAt(subs, userId, k) && IsSubmitted(subs[k])) ==> f.Some? && IsSubmitted(f.value) by {
      if k :| FirstEntryAt(subs, userId, k) && IsSubmitted(subs[k]) {
        var k' :| FirstEntryAt(subs, userId, k') && subs[k'] == f.value;
        FirstEntryUnique(subs, userId, k, k');
      }
    }
    if f.Some? && IsSubmitted(f.value) then f else None
  }

  /** `getStudentSubmissionCount`: the pieces of coursework the student has
      turned in (at most one per piece). */
  function StudentSubmittedCount(userId: string, courseWork: seq<CourseWork>, entries: seq<WorkEntry>): (n: nat)
    ensures n <= |courseWork|
  {
    if |courseWork| == 0 then 0
    else
      StudentSubmittedCount(userId, courseWork[..|courseWork| - 1], entries)
        + (if CountedFor(Lookup(entries, courseWork[|courseWork| - 1].id), userId).Some? then 1 else 0)
  }

  /** Among those, the ones flagged late. */
  function StudentLateCount(userId: string, courseWork: seq<CourseWork>, entries: seq<WorkEntry>): (n: nat)
    ensures n <= StudentSubmittedCount(userId, courseWork, entries)
  {
    if |courseWork| == 0 then 0
    else
      var c := CountedFor(Lookup(entries, courseWork[|courseWork| - 1].id), userId);
      StudentLateCount(userId, courseWork[..|courseWork| - 1], entries)
        + (if c.Some? && c.value.late then 1 else 0)
  }

  /** The `updateTime` of each counted submission, in coursework order. */
  function StudentTimes(userId: string, courseWork: seq<CourseWork>, entries: seq<WorkEntry>): (ts: seq<string>)
    ensures |ts| == StudentSubmittedCount(userId, courseWork, entries)
  {
    if |courseWork| == 0 then []
    else
      var c := CountedFor(Lookup(entries, courseWork[|courseWork| - 1].id), userId);
      StudentTimes(userId, courseWork[..|courseWork| - 1], entries)
        + (if c.Some? then [c.value.updateTime] else [])
  }

  /** Each counted time is the update time of a submitted entry by that
      student on one of the coursework items. */
  lemma {:induction false} StudentTimesFromSubmissions(userId: string, courseWork: seq<CourseWork>, entries: seq<WorkEntry>, i: nat)
    requires i < |StudentTimes(userId, courseWork, entries)|
    ensures exists k, s :: 0 <= k < |courseWork| && s in Lookup(entries, courseWork[k].id)
                           && s.userId == userId && IsSubmitted(s)
                           && s.updateTime == StudentTimes(userId, courseWork, entries)[i]
  {
    var init := courseWork[..|courseWork| - 1];
    var c := CountedFor(Lookup(entries, courseWork[|courseWork| - 1].id), userId);
    if i < |StudentTimes(userId, init, entries)| {
      StudentTimesFromSubmissions(userId, init, entries, i);
      var k, s :| 0 <= k < |init| && s in Lookup(entries, init[k].id)
                  && s.userId == userId && IsSubmitted(s)
                  && s.updateTime == StudentTimes(userId, init, entries)[i];
      assert courseWork[k] == init[k];
    } else {
      assert c.Some?;
      assert c.value.updateTime == StudentTimes(userId, courseWork, entries)[i];
      assert courseWork[|courseWork| - 1].id == courseWork[|courseWork| - 1].id;
    }
  }
}
