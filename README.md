# Classroom analytics aggregation, modelled in Dafny

This project models the aggregation layer of a Google Classroom analytics
dashboard. It covers the two services that take an in-memory snapshot of
courses, rosters, coursework and submissions and turn it into the following:

- course totals and school totals;
- submission and late rates, rounded to whole percent;
- a good / at-risk / inactive status for each student;
- 30-day engagement histograms;
- per-assignment, per-student, per-course and per-teacher tables;
- the list of at-risk students;
- the insight cards shown on the administrator dashboard.

Both services are written as loops that update counters, sets and
string-keyed records. Each operation is therefore a `method` with loops and
invariants, proved equal to a specification `function` on the snapshot. What
the services promise is proved as lemmas about those functions.

Modules:

- **`Common`**:
  - `Math.round(100 * a / b)` as exact round-half-up arithmetic (`RoundPercent`, `Percent`).
  - The three-tier status (`Classify`).
  - The code-unit order on strings that `>` on ISO timestamps uses (`LexLess`).
  - The running maximum of timestamps (`LatestFrom`, `Latest`).
- **`Snapshot`**: the input records and the counts both services share.
  - A `submissionsByWork` record is an insertion-ordered list of entries with distinct keys.
  - `Lookup` returns `[]` for a missing key, as `|| []` does.
  - Timestamps are kept as raw text together with their parsed day; due dates are local-midnight instants.
- **`Engagement`**: the 30-day series, one bucket per day from `today - 29` to `today`.
- **`AnalyticsTypes`**: the output records.
- **`ClassroomAnalytics`**: the per-course functions of `classroomAnalyticsService.ts`.
- **`ClassroomAggregation`**: `aggregateCourseAnalytics`, and the combination step of `getAggregatedAnalytics`.
- **`AdminOverview`**: the school overview, the aggregate summary and the school engagement series of `adminAnalyticsService.ts`.
- **`AdminPerformance`**: the course table, plus the top-five and bottom-five slices.
- **`Rosters`**: the walk over roster appearances. A `teacherMap` or `studentMap` record is a map plus its key order. `Keyed` states that the record holds, for each id in first-appearance order, the entry built from every course that lists that person.
- **`AdminTeachers`**: the teacher table.
- **`AdminAtRisk`**: the at-risk student list.
- **`AdminInsights`**: the insight cards.
- **`StableSort`**: `Array.prototype.sort` with a numeric comparator, which is a stable sort.

The model keeps several places where the two services behave differently on
purpose:

- **At-risk thresholds.** The per-course at-risk count uses `< 80`. The student status elsewhere has three tiers.
- **Students with no coursework.** They count as 100% in the overview and in the course table. They count as 0%, hence inactive, in the per-student tables. `NoCourseworkStudentsInactive` proves both outcomes for the same course.
- **Students in several courses.**
  - The at-risk list sums a student's totals over all of that student's courses.
  - The teacher-side aggregate keeps the student's first row.
  - The teacher-side aggregate's `totalStudents` counts the student in every course (`SharedStudentCountedTwice`).
- **Malformed timestamps.** The school series skips them. The per-course series has no guard, so there a malformed timestamp is an error result.

The assignment table's `submissionRate` is `100 * submitted / roster`.
`missingCount` is `roster - submitted`. Neither is clamped. When the
submissions outnumber the roster, the rate exceeds 100 and the missing count
is negative (`AssignmentRateCanExceedHundred`). The code clamps neither the
rate to [0, 100] nor the missing count to at least 0, and the model keeps that.

## Model

| member | source | states |
|---|---|---|
| ClassroomAnalytics.ComputeSummary | src/services/classroomAnalyticsService.ts:93-131 | the course totals are the roster and coursework lengths, the count of TURNED_IN/RETURNED entries, the count of those that are late, and the count of NEW/CREATED entries on overdue coursework, over the entries of every coursework id (missing key = no entries) |
| ClassroomAnalytics.MissingIffOverduePending | src/services/classroomAnalyticsService.ts:112-119 | the missing count is positive exactly when some piece of coursework has a due date whose local midnight is strictly before `now` and a NEW or CREATED entry; coursework without a due date never contributes |
| ClassroomAnalytics.OverduePendingCount | src/services/classroomAnalyticsService.ts:112-118 | a piece of coursework contributes missing entries exactly when it is overdue and has a NEW or CREATED entry |
| ClassroomAnalytics.OverdueNewSubmissionIsMissing | src/services/classroomAnalyticsService.ts:105-121 | one overdue assignment with one NEW entry gives one missing submission and no submitted one |
| ClassroomAnalytics.InitWindow | src/services/classroomAnalyticsService.ts:138-142 | the buckets are exactly the 30 days from `today - 29` to `today`, each at 0, listed in chronological order |
| ClassroomAnalytics.CountDays | src/services/classroomAnalyticsService.ts:146-154 | counting one key's entries succeeds exactly when none of them is a submitted entry whose update time does not parse; on success each window day is raised by the entries counted on that day |
| ClassroomAnalytics.ComputeEngagementData | src/services/classroomAnalyticsService.ts:133-162 | the result is an error exactly when some submitted entry under any key of the record has an unparseable update time; otherwise it is the 30-day series over all the record's entries |
| ClassroomAnalytics.ComputeAssignmentStats | src/services/classroomAnalyticsService.ts:164-205 | one row per piece of coursework, in order, each the row of that coursework |
| ClassroomAnalytics.AssignmentStatsRow | src/services/classroomAnalyticsService.ts:169-204 | one coursework row: submitted and late counts of its entries, missing as roster minus submitted, and the unrounded rate |
| ClassroomAnalytics.AssignmentRowFacts | src/services/classroomAnalyticsService.ts:175-183 | submitted plus missing is the roster size, late is at most submitted, the rate is 0 for an empty roster and otherwise 100 * submitted / roster, within [0, 100] when submitted does not exceed the roster |
| ClassroomAnalytics.RateArithmetic | src/services/classroomAnalyticsService.ts:183 | `submitted / total * 100` scaled back by `total` is `100 * submitted`, non-negative, and at most 100 when submitted is at most total |
| ClassroomAnalytics.AssignmentRateCanExceedHundred | src/services/classroomAnalyticsService.ts:182-183 | two submitted entries against a roster of one give a rate of 200 and a missing count of -1 |
| ClassroomAnalytics.StudentTotals | src/services/classroomAnalyticsService.ts:215-235 | per student: the number of coursework items whose first entry by that student is submitted, how many of those are late, and the greatest non-empty update time among them |
| ClassroomAnalytics.StudentStep | src/services/classroomAnalyticsService.ts:219-234 | one more piece of coursework adds its first entry by the student, if submitted, to the counts and its update time to the candidates |
| ClassroomAnalytics.ComputeStudentProgress | src/services/classroomAnalyticsService.ts:207-267 | one row per roster student, in roster order, each that student's row |
| ClassroomAnalytics.StudentProgressRow | src/services/classroomAnalyticsService.ts:214-266 | one student's row: name falls back to "Unknown Student", percentage rounded half up, status from the percentage |
| ClassroomAnalytics.StudentRowFacts | src/services/classroomAnalyticsService.ts:237-250 | submitted plus missing is the number of assignments, late ≤ submitted ≤ assignments, the percentage lies in [0, 100] and is 0 without assignments, status is good iff ≥ 80, at-risk iff in [50, 80), inactive iff < 50 |
| ClassroomAnalytics.LastSubmissionIsMostRecent | src/services/classroomAnalyticsService.ts:228-232 | the last submission date is absent exactly when no counted submission has an update time; otherwise it is the update time of one of the student's submitted entries and no counted update time is greater |
| ClassroomAnalytics.StudentTimesCover | src/services/classroomAnalyticsService.ts:221-230 | the update time of every counted submission is among the candidates for the last submission |
| ClassroomAnalytics.StudentTimesAreCounted | src/services/classroomAnalyticsService.ts:221-230 | every candidate update time belongs to a counted submission |
| ClassroomAnalytics.CourseAnalyticsOf | src/services/classroomAnalyticsService.ts:49-62 | the course record is an error exactly when the engagement series fails; otherwise it holds the summary, series, assignment rows and student rows of the course |
| ClassroomAnalytics.EntrySubsPrefix | src/services/classroomAnalyticsService.ts:145-147 | walking the record key by key visits its entries in order, each prefix a prefix of all entries |
| ClassroomAggregation.SumSummary | src/services/classroomAnalyticsService.ts:271-285 | every summary field is the plain sum of the courses' fields |
| ClassroomAggregation.SumSummariesLateBound | src/services/classroomAnalyticsService.ts:279-285 | when each course has late ≤ submitted, so has the sum |
| ClassroomAggregation.MergeEngagement | src/services/classroomAnalyticsService.ts:288-300 | the merged series has one point per distinct date of the input points, its count the sum of that date's counts, sorted by strictly increasing date |
| ClassroomAggregation.MergeStepNew | src/services/classroomAnalyticsService.ts:291-292 | a point with an unseen date opens a key at the end with its count |
| ClassroomAggregation.MergeStepOld | src/services/classroomAnalyticsService.ts:293-294 | a point with a seen date adds its count to that key |
| ClassroomAggregation.MergedValues | src/services/classroomAnalyticsService.ts:298 | the record's values have the input dates, each once, each with its summed count |
| ClassroomAggregation.SortedDatesIncreasing | src/services/classroomAnalyticsService.ts:298-300 | sorting points with distinct dates by date gives strictly increasing dates |
| ClassroomAggregation.SortedMerge | src/services/classroomAnalyticsService.ts:298-300 | sorting the record's values gives the merged series |
| ClassroomAggregation.ConcatAssignmentStats | src/services/classroomAnalyticsService.ts:303-306 | the assignment rows are the concatenation of the courses' rows in course order |
| ClassroomAggregation.FirstRow | src/services/classroomAnalyticsService.ts:312-313 | a user's first row is absent iff the user has no row, and otherwise is the earliest row of that user |
| ClassroomAggregation.FirstPerUserFacts | src/services/classroomAnalyticsService.ts:309-317 | the kept rows have distinct user ids, cover every user of the input, are each that user's first row unchanged, and are no more than the input rows |
| ClassroomAggregation.StudentStepNew | src/services/classroomAnalyticsService.ts:312-314 | a row of an unseen user opens a key at the end holding that row |
| ClassroomAggregation.StudentStepOld | src/services/classroomAnalyticsService.ts:312 | a row of a seen user leaves the record unchanged |
| ClassroomAggregation.RecordRows | src/services/classroomAnalyticsService.ts:311-315 | one course's rows extend the record to the first rows of all rows seen so far |
| ClassroomAggregation.UniqueStudents | src/services/classroomAnalyticsService.ts:309-317 | the student rows are the first row of every user in first-appearance order |
| ClassroomAggregation.AggregateCourseAnalytics | src/services/classroomAnalyticsService.ts:269-327 | the combined record is "all" / "All Courses" with the summed summary, the merged series, the concatenated assignment rows and the first row per student |
| ClassroomAggregation.AllAssignmentStatsLength | src/services/classroomAnalyticsService.ts:303-306 | the concatenated assignment rows number the summed assignment total when each course's do |
| ClassroomAggregation.AllStudentRowsLength | src/services/classroomAnalyticsService.ts:309-316 | all courses' student rows together number the summed student total when each course's do |
| ClassroomAggregation.AggregateCounts | src/services/classroomAnalyticsService.ts:279-317 | the combined record has one assignment row per summed assignment and no more student rows than the summed student total |
| ClassroomAggregation.SharedStudentCountedTwice | src/services/classroomAnalyticsService.ts:280 | a student on two rosters keeps one row but counts twice in the summed total (also lines 309-317) |
| ClassroomAggregation.AggregatedAnalytics | src/services/classroomAnalyticsService.ts:71-87 | nothing when no course analytics succeeded, otherwise the aggregate of the courses that did, in order |
| AdminOverview.GetStudentSubmissionCount | src/services/adminAnalyticsService.ts:186-200 | the number of coursework items whose first entry by the user is TURNED_IN or RETURNED |
| AdminOverview.AddIds | src/services/adminAnalyticsService.ts:139-140 | adding a roster's ids to the set gives the union with the roster's ids |
| AdminOverview.CountWork | src/services/adminAnalyticsService.ts:143-153 | expected is roster × coursework, submitted and late count the course's TURNED_IN/RETURNED and late entries |
| AdminOverview.CountBands | src/services/adminAnalyticsService.ts:156-162 | the course's at-risk and inactive roster entries, by the unrounded rate (100 without coursework) |
| AdminOverview.RatioBelow | src/services/adminAnalyticsService.ts:158-161 | `count / n * 100 < t` holds exactly when `100 * count < t * n` |
| AdminOverview.StudentRateBelow | src/services/adminAnalyticsService.ts:157-161 | a student's rate is below a threshold exactly when 100 × submitted < threshold × coursework, or, without coursework, when 100 is below it |
| AdminOverview.ComputeSchoolOverview | src/services/adminAnalyticsService.ts:128-184 | the overview is: course count, active course count, distinct teacher and student ids, assignment total, submitted total, the rounded submission and late rates, and the at-risk and inactive roster entries |
| AdminOverview.RateBounds | src/services/adminAnalyticsService.ts:165-170 | the late rate lies in [0, 100] and is 0 without submissions; the submission rate is 0 without expected submissions and otherwise the nearest integer to 100 × submitted / expected, halves up |
| AdminOverview.OverviewRates | src/services/adminAnalyticsService.ts:143-170 | late ≤ submitted; overall late rate in [0, 100] and 0 without submissions; overall submission rate round-half-up of 100 × submitted / Σ roster × coursework, 0 when that is 0 |
| AdminOverview.EmptyOverview | src/services/adminAnalyticsService.ts:128-184 | a school without courses has every overview figure 0 |
| AdminOverview.BandsWithinRoster | src/services/adminAnalyticsService.ts:156-162 | a course's at-risk plus inactive entries never exceed its roster |
| AdminOverview.FlaggedWithinRoster | src/services/adminAnalyticsService.ts:155-162 | school at-risk plus inactive never exceed the total of roster sizes (also lines 181-182) |
| AdminOverview.NoCourseworkBands | src/services/adminAnalyticsService.ts:158 | without coursework no roster entry is at risk or inactive |
| AdminOverview.NoCourseworkNeverFlagged | src/services/adminAnalyticsService.ts:158-161 | a school of one course without coursework counts no at-risk and no inactive students |
| AdminOverview.PersonIdsBound | src/services/adminAnalyticsService.ts:139-140 | a roster has at most as many distinct ids as entries |
| AdminOverview.DistinctIdsBound | src/services/adminAnalyticsService.ts:139-140 | distinct student and teacher counts never exceed the totals of roster sizes (also lines 175-176) |
| AdminOverview.SharedStudentCountedOnce | src/services/adminAnalyticsService.ts:140 | a student on two rosters counts once in the overview although the rosters total two (also line 176) |
| AdminOverview.AllActiveCount | src/services/adminAnalyticsService.ts:174 | when every course is ACTIVE, the active count is the number of courses |
| AdminOverview.ActiveCoursesAreAllCourses | src/services/adminAnalyticsService.ts:27 | with the input filtered to ACTIVE courses, activeCourses equals totalCourses (also lines 173-174) |
| AdminOverview.ComputeAggregateSummary | src/services/adminAnalyticsService.ts:202-241 | distinct student ids, assignment total, submitted and late totals, and NEW/CREATED entries on overdue coursework summed over all courses |
| AdminOverview.SchoolMissingPositive | src/services/adminAnalyticsService.ts:222-229 | the school missing count is positive exactly when some course has overdue coursework with a NEW or CREATED entry |
| AdminOverview.SchoolMissingIff | src/services/adminAnalyticsService.ts:222-229 | the summary's missingSubmissions is positive exactly when some course has overdue coursework with a NEW or CREATED entry (also line 239) |
| AdminOverview.AggregateSummaryBounds | src/services/adminAnalyticsService.ts:209-240 | late ≤ submitted, and the distinct student count is at most the total of roster sizes |
| AdminOverview.ComputeAggregateEngagement | src/services/adminAnalyticsService.ts:243-275 | the points are the 30-day series over every course's submissions, unparseable timestamps skipped |
| AdminOverview.CountWorkDays | src/services/adminAnalyticsService.ts:255-266 | one coursework's entries raise each window day by the entries counted on that day and leave the window's days unchanged |
| AdminOverview.CountCourseDays | src/services/adminAnalyticsService.ts:253-267 | one course's entries raise each window day by the entries counted on that day |
| AdminOverview.DayCountConcatStep | src/services/adminAnalyticsService.ts:255-265 | one more entry raises a day's count by one exactly when it counts on that day |
| AdminOverview.AggregateEngagementTotal | src/services/adminAnalyticsService.ts:243-275 | the series has 30 points and its total is at most the number of submitted entries with an update time |
| Engagement.SeriesShape | src/services/adminAnalyticsService.ts:246-250 | 30 points, the first dated `today - 29` and the last `today`, point k dated `today - 29 + k` with that day's count (also lines 270-274) |
| Engagement.SeriesChronological | src/services/adminAnalyticsService.ts:246-250 | the dates strictly increase |
| Engagement.SeriesFromAt | src/services/classroomAnalyticsService.ts:157-161 | each point of the series holds its day and that day's count |
| Engagement.SeriesTotal | src/services/adminAnalyticsService.ts:255-261 | the total over the window is the sum of the daily counts and at most the number of dated submitted entries |
| Engagement.RangeCountBound | src/services/adminAnalyticsService.ts:255-261 | the counts of distinct days together never exceed the dated submitted entries |
| Engagement.UnparseableNeverCounted | src/services/adminAnalyticsService.ts:257-264 | an entry whose update time does not parse raises no day's count |
| AdminPerformance.ActivityOfWork | src/services/adminAnalyticsService.ts:290-298 | one coursework's entries advance submitted, late and the latest update time to the values over all entries seen |
| AdminPerformance.ActivityStep | src/services/adminAnalyticsService.ts:291-296 | one more entry, if submitted, adds one, one more late if late, and replaces the latest time when its time is non-empty and greater |
| AdminPerformance.CourseActivity | src/services/adminAnalyticsService.ts:288-299 | a course's submitted and late counts and its greatest non-empty update time among submitted entries |
| AdminPerformance.CountBelowEighty | src/services/adminAnalyticsService.ts:302-306 | the roster entries whose unrounded rate is below 80 (100 without coursework) |
| AdminPerformance.CoursePerformanceOf | src/services/adminAnalyticsService.ts:278-327 | one course's row: teacher names joined by ", " (fallback "Unknown"), the first teacher's email, roster and coursework counts, the two rounded rates, the at-risk count and the last activity |
| AdminPerformance.ComputeCoursePerformance | src/services/adminAnalyticsService.ts:277-328 | one row per course, in input order |
| AdminPerformance.BelowEightyBound | src/services/adminAnalyticsService.ts:302-306 | the at-risk count never exceeds the roster and is 0 without coursework |
| AdminPerformance.CourseRowFacts | src/services/adminAnalyticsService.ts:280-325 | studentCount and assignmentCount are the roster and coursework lengths, atRisk ≤ studentCount and 0 without coursework, late rate in [0, 100] and 0 without submissions, submission rate 0 when nothing is expected, teacherEmail only from the first teacher |
| AdminPerformance.BelowEightySplits | src/services/adminAnalyticsService.ts:160-161 | the course table's at-risk count is the overview's at-risk plus inactive count for that course (also line 305) |
| AdminPerformance.CourseAtRiskIncludesInactive | src/services/adminAnalyticsService.ts:161 | for one course, the table's at-risk column equals the overview's at-risk plus inactive counts (also line 305) |
| AdminPerformance.LatestSubmittedTime | src/services/adminAnalyticsService.ts:294-296 | the latest time is absent exactly when no submitted entry has an update time; otherwise it is one of them and none is greater |
| AdminPerformance.LastActivityIsLatest | src/services/adminAnalyticsService.ts:286-296 | a course's last activity is absent exactly when no submitted entry has an update time; otherwise it is the greatest of them (also line 325) |
| AdminPerformance.SubmittedTimesFrom | src/services/adminAnalyticsService.ts:294 | every candidate time is the update time of a submitted entry |
| AdminPerformance.SubmittedTimesCover | src/services/adminAnalyticsService.ts:294 | the update time of every submitted entry is a candidate |
| AdminPerformance.RankedFacts | src/services/adminAnalyticsService.ts:83 | the ranked list is a permutation of the rows, in non-increasing submission rate |
| AdminPerformance.RankedStable | src/services/adminAnalyticsService.ts:83 | rows with equal submission rate keep their input order |
| AdminPerformance.TopPerformingFacts | src/services/adminAnalyticsService.ts:84 | the top list is the first min(5, n) ranked rows, non-increasing, none below a row left out |
| AdminPerformance.LowPerformingFacts | src/services/adminAnalyticsService.ts:85 | the low list is the last min(5, n) ranked rows reversed, non-decreasing, none above a row left out |
| AdminPerformance.ReversedTail | src/services/adminAnalyticsService.ts:85 | reversing the last m rows of a non-increasing list gives a non-decreasing list bounded by the rest |
| AdminPerformance.FewCoursesLowIsReversedTop | src/services/adminAnalyticsService.ts:84-85 | with at most five courses the low list is the top list reversed |
| AdminPerformance.Reverse | src/services/adminAnalyticsService.ts:85 | the reversed list has the same length, element k being element n-1-k |
| Rosters.AppearanceIds | src/services/adminAnalyticsService.ts:340 | the ids appearing on one course's roster are exactly that roster's ids (also line 408) |
| Rosters.FirstLinksFacts | src/services/adminAnalyticsService.ts:341-349 | the record's keys are distinct, are exactly the ids that appear, and each is opened at its earliest appearance (also lines 409-419) |
| Rosters.FirstLinksDistinct | src/services/adminAnalyticsService.ts:341 | no id opens two keys |
| Rosters.FirstLinkIds | src/services/adminAnalyticsService.ts:341-349 | every id that appears opens a key, and no other |
| Rosters.FirstLinksEarliest | src/services/adminAnalyticsService.ts:341-349 | each key is opened by the earliest appearance of its id |
| Rosters.FirstLinksSnoc | src/services/adminAnalyticsService.ts:341-350 | one more appearance opens a key at the end only for an unseen id, and adds its course to that id's courses only |
| Rosters.KeyedNew | src/services/adminAnalyticsService.ts:341-350 | recording an unseen id appends its key with the entry of its one course (also lines 409-419) |
| Rosters.KeyedOld | src/services/adminAnalyticsService.ts:350 | recording a seen id replaces its entry by the entry of its courses so far, keys unchanged (also lines 421-436) |
| Rosters.KeyedAt | src/services/adminAnalyticsService.ts:354 | `Object.values` of the record lists, for each id in first-appearance order, the entry built from that person's first appearance and all of that person's courses (also line 440) |
| Rosters.CoursesForMembers | src/services/adminAnalyticsService.ts:339-351 | a course is among a person's courses exactly when it is in the input and lists that person |
| Rosters.CoursesForConcat | src/services/adminAnalyticsService.ts:339-351 | a person's courses over two stretches of appearances are the courses of each in order |
| Rosters.CoursesForAppearances | src/services/adminAnalyticsService.ts:340 | one course's appearances give a person that course exactly when its roster lists the person (also line 350) |
| Rosters.CoursesForAbsent | src/services/adminAnalyticsService.ts:341-350 | an id that never appears has no courses |
| Rosters.PeopleOf | src/services/adminAnalyticsService.ts:339-354 | one key per distinct id on the rosters of the given role, each once (also lines 407-440) |
| Rosters.FirstAppearanceIds | src/services/adminAnalyticsService.ts:339-354 | the keys are exactly the ids on the rosters of the role (also lines 407-440) |
| Rosters.FirstAppearanceCount | src/services/adminAnalyticsService.ts:339-354 | the number of keys is the number of distinct ids on those rosters (also lines 407-440) |
| Rosters.LinkIdsAreRoleIds | src/services/adminAnalyticsService.ts:340 | the ids that appear are the ids on the rosters (also line 408) |
| Rosters.DistinctCount | src/services/adminAnalyticsService.ts:354 | distinct keys make as many ids as entries (also line 440) |
| AdminTeachers.RecordTeacher | src/services/adminAnalyticsService.ts:340-351 | one appearance extends the record to every appearance so far: an unseen teacher opens an entry, every appearance adds its course |
| AdminTeachers.RecordStep | src/services/adminAnalyticsService.ts:341-350 | the record after one more appearance is the record of the longer walk |
| AdminTeachers.BuildTeacherRecord | src/services/adminAnalyticsService.ts:339-352 | the record holds, per distinct teacher in first-appearance order, the teacher's first profile and every course listing that teacher |
| AdminTeachers.CountSubmitted | src/services/adminAnalyticsService.ts:366-374 | the submitted and late counts of one course |
| AdminTeachers.TeacherStats | src/services/adminAnalyticsService.ts:354-392 | one teacher's row: courses, distinct students over them, assignment total and pooled submission and late rates |
| AdminTeachers.RowsOf | src/services/adminAnalyticsService.ts:354 | one row per key, in key order |
| AdminTeachers.RowsFromRecord | src/services/adminAnalyticsService.ts:354 | the record's rows in key order are the teacher table |
| AdminTeachers.ComputeTeacherPerformance | src/services/adminAnalyticsService.ts:330-393 | the teacher table is one row per distinct teacher in first-appearance order |
| AdminTeachers.TeacherRowIdentity | src/services/adminAnalyticsService.ts:342-348 | each row's id, name (fallback "Unknown Teacher"), email and photo come from the teacher's first appearance (also lines 378-381) |
| AdminTeachers.TeacherIdentityFromFirstAppearance | src/services/adminAnalyticsService.ts:341-348 | each row's identity is that of an appearance with no earlier appearance of the same id |
| AdminTeachers.TeacherRowsAreTeachers | src/services/adminAnalyticsService.ts:339-354 | exactly one row per distinct teacher id on the rosters |
| AdminTeachers.TeacherRowFacts | src/services/adminAnalyticsService.ts:355-391 | coursesCount is one course per roster appearance of the teacher, as `courses.push` does, so a roster listing the teacher twice counts twice (≥ 1), totalStudents the distinct students over them (≤ their roster total), totalAssignments their coursework total, late rate in [0, 100], submission rate 0 when nothing is expected |
| AdminTeachers.SingleCourseTeacherMatchesCourse | src/services/adminAnalyticsService.ts:308-313 | a teacher of one course gets that course's submission and late rates, since the rates are pooled (also lines 385-390) |
| AdminTeachers.CoursesForOccurrence | src/services/adminAnalyticsService.ts:350 | every appearance's course is among that person's courses |
| AdminAtRisk.AccumulateCourse | src/services/adminAnalyticsService.ts:421-436 | one course adds its coursework to the total, the student's counted submissions and late ones to the counts, and keeps the greatest update time |
| AdminAtRisk.TallySnoc | src/services/adminAnalyticsService.ts:421-436 | the totals over one more course are the totals so far plus that course |
| AdminAtRisk.RecordStudent | src/services/adminAnalyticsService.ts:408-436 | one appearance extends the record to every appearance so far |
| AdminAtRisk.RecordStepNew | src/services/adminAnalyticsService.ts:409-436 | an unseen student opens an entry with zero totals, then adds the course |
| AdminAtRisk.RecordStepOld | src/services/adminAnalyticsService.ts:421-436 | a seen student's entry adds the course, keys unchanged |
| AdminAtRisk.RecordStep | src/services/adminAnalyticsService.ts:408-436 | the record after one more appearance is the record of the longer walk |
| AdminAtRisk.RecordCourse | src/services/adminAnalyticsService.ts:408-437 | one course's roster extends the record to every appearance so far |
| AdminAtRisk.BuildStudentRecord | src/services/adminAnalyticsService.ts:407-438 | the record holds, per distinct student in first-appearance order, the totals over every course listing that student |
| AdminAtRisk.StudentRowOf | src/services/adminAnalyticsService.ts:441-465 | one row: rounded percentage (0 without assignments), missing as total minus submitted, status from the percentage |
| AdminAtRisk.RowsOf | src/services/adminAnalyticsService.ts:440-465 | one row per key, in key order |
| AdminAtRisk.RowsFromRecord | src/services/adminAnalyticsService.ts:440-465 | the record's rows in key order are the school's student rows |
| AdminAtRisk.FilterFlagged | src/services/adminAnalyticsService.ts:466 | the at-risk and inactive rows, in order |
| AdminAtRisk.IdentifyAtRiskStudents | src/services/adminAnalyticsService.ts:395-468 | the result is the flagged school student rows, stably sorted by ascending percentage |
| AdminAtRisk.TallyFacts | src/services/adminAnalyticsService.ts:409-436 | the entry keeps the student's identity (fallback "Unknown Student"), its total is the coursework of its courses, late ≤ submitted ≤ total, and its last submission is the greatest update time over all its courses |
| AdminAtRisk.AtRiskRowFacts | src/services/adminAnalyticsService.ts:442-464 | missing ≥ 0, submitted plus missing is the total, percentage ≤ 100, status good iff ≥ 80 and inactive iff < 50, inactive without assignments, good when everything is submitted |
| AdminAtRisk.SchoolRowFacts | src/services/adminAnalyticsService.ts:407-465 | each row belongs to a student on some roster, sums over exactly the courses listing that student, and has missing ≥ 0, late ≤ submitted, percentage ≤ 100 and the greatest update time |
| AdminAtRisk.SchoolRowsDistinct | src/services/adminAnalyticsService.ts:407-440 | one row per distinct student id, each id once |
| AdminAtRisk.FlaggedFacts | src/services/adminAnalyticsService.ts:466 | a row is kept exactly when its status is not good; keeping rows never adds any and keeps ids distinct |
| AdminAtRisk.RowsClassified | src/services/adminAnalyticsService.ts:446-449 | each row's status is the classification of its percentage |
| AdminAtRisk.AtRiskStudentsMembers | src/services/adminAnalyticsService.ts:466-467 | a row is in the result exactly when it is a school student row that is at-risk or inactive; every result row is below 80 |
| AdminAtRisk.AtRiskStudentsDistinct | src/services/adminAnalyticsService.ts:407-467 | at most one result row per student id, so at most as many rows as distinct students |
| AdminAtRisk.AtRiskStudentsOrder | src/services/adminAnalyticsService.ts:467 | the result is in ascending percentage, rows of equal percentage in the order they had before sorting |
| AdminAtRisk.NoCourseworkStudentsInactive | src/services/adminAnalyticsService.ts:158-161 | in a course without coursework every student is inactive and listed, while the overview counts none of them at risk or inactive (also lines 442-449) |
| AdminInsights.GenerateInsights | src/services/adminAnalyticsService.ts:550-595 | the cards are: the excellent-rate card at ≥ 80 or the low-rate card below 60, the at-risk card when at-risk exceeds a fifth of the students, and the community card |
| AdminInsights.InsightsPresence | src/services/adminAnalyticsService.ts:557-583 | card 1 iff rate ≥ 80, card 2 iff rate < 60, never both, card 3 iff 5 × atRisk > students, card 4 always |
| AdminInsights.InsightsShape | src/services/adminAnalyticsService.ts:555-594 | one to three cards, each the stock card of its id, the community card last, warnings exactly cards 2 and 3 |
| AdminInsights.InsightsOrder | src/services/adminAnalyticsService.ts:555-594 | the ids are distinct and increasing |
| AdminInsights.EmptySchoolInsights | src/services/adminAnalyticsService.ts:566-591 | a school without courses gets the low-rate card and "0 teachers actively managing 0 courses." |
| StableSort.SortBy | src/services/adminAnalyticsService.ts:83 | the sorted list has the same length and the same elements with the same multiplicities (also line 467) |
| StableSort.SortBySorted | src/services/adminAnalyticsService.ts:83 | the sorted list is in non-decreasing key order (also line 467) |
| StableSort.SortByStable | src/services/adminAnalyticsService.ts:83 | the elements of any one key keep their relative order (also line 467) |
| StableSort.SortByMembers | src/services/adminAnalyticsService.ts:467 | sorting keeps exactly the elements of the input |
| StableSort.SortByDistinctKeys | src/services/classroomAnalyticsService.ts:298-300 | with distinct keys the sorted keys strictly increase |
| StableSort.PermutationDistinctKeys | src/services/adminAnalyticsService.ts:467 | a permutation of a list with distinct keys has distinct keys |
| Common.RoundPercent | src/services/adminAnalyticsService.ts:165-170 | the result is the integer nearest to 100 × part / whole, halves rounded up |
| Common.Percent | src/services/classroomAnalyticsService.ts:238-240 | 0 without a denominator or without a numerator, at most 100 when part ≤ whole, exactly 100 when part = whole |
| Common.ClassifyMonotone | src/services/classroomAnalyticsService.ts:243-250 | a higher percentage never gets a worse status; 80 is good and 79 at risk, 50 at risk and 49 inactive |
| Common.JoinCons | src/services/adminAnalyticsService.ts:279 | joining two or more names writes the first name, the separator, and the other names joined |
| Common.JoinLength | src/services/adminAnalyticsService.ts:279 | the joined text is as long as all names together plus one separator between each two |
| Common.LexLessTransitive | src/services/adminAnalyticsService.ts:294 | the string order is transitive |
| Common.LexLessTotal | src/services/adminAnalyticsService.ts:294 | any two distinct strings are ordered one way |
| Common.LexLessAsymmetric | src/services/adminAnalyticsService.ts:294 | the string order is asymmetric |
| Common.LexLessIrreflexive | src/services/adminAnalyticsService.ts:294 | no string is below itself |
| Common.LatestFromIsMaximum | src/services/classroomAnalyticsService.ts:228-232 | the running maximum is absent exactly when there is no non-empty time, is otherwise non-empty, one of the times or the start value, and no time is greater |
| Common.LatestFromConcat | src/services/adminAnalyticsService.ts:431-433 | the running maximum over two stretches continues from the first stretch's result |
| Snapshot.Lookup | src/services/classroomAnalyticsService.ts:106 | a missing key gives no submissions; a present key gives its own submissions |
| Snapshot.FindFor | src/services/classroomAnalyticsService.ts:221 | absent exactly when the user has no entry; otherwise the entry at the user's first index, with no earlier entry of that user |
| Snapshot.CountedFor | src/services/classroomAnalyticsService.ts:221-224 | present exactly when the user's first entry is TURNED_IN or RETURNED, and then it is that first entry |
| Snapshot.SubmittedIn | src/services/classroomAnalyticsService.ts:109-110 | at most one per entry |
| Snapshot.LateIn | src/services/classroomAnalyticsService.ts:111 | late entries never exceed submitted ones |
| Snapshot.PendingIn | src/services/classroomAnalyticsService.ts:112 | pending and submitted entries together never exceed the entries |
| Snapshot.PendingInPositive | src/services/classroomAnalyticsService.ts:112 | the pending count is positive exactly when some entry is NEW or CREATED |
| Snapshot.CountsOfConcat | src/services/classroomAnalyticsService.ts:105-122 | submitted and late counts add up over concatenated entries |
| Snapshot.StudentSubmittedCount | src/services/classroomAnalyticsService.ts:219-226 | at most one per piece of coursework |
| Snapshot.StudentLateCount | src/services/classroomAnalyticsService.ts:226 | never more than the student's submitted count |
| Snapshot.StudentTimes | src/services/classroomAnalyticsService.ts:228-232 | one candidate time per counted submission |
| Snapshot.StudentTimesFromSubmissions | src/services/classroomAnalyticsService.ts:221-230 | every candidate time is the update time of a submitted entry of that student |

## Left out

- The network orchestration: `getSchoolAnalytics`, `getTeacherCourses`, the fetching part of `getCourseAnalytics`, and the fetch and try/catch of `getAggregatedAnalytics`. These are calls to `classroomService`, which is not part of this model, plus `Promise.all` fan-out and catch-to-empty. The model starts from the fetched snapshot. In the model, a failing course is one whose engagement series is an error.
- The `courseState === 'ACTIVE'` filter before the school rollups is a precondition of `ActiveCoursesAreAllCourses`, not a step of the model.
- `computeUsageStats`, `generateGuardianStats` and `generateSampleAnnouncements`: fixed multipliers, constants and an empty list, with nothing to aggregate.
- `generateRecentActivity`: it sorts by JavaScript date parsing, which can produce NaN.
- Date handling is not modelled. The clock is a parameter: `now` is an instant and `today` a day number. Each timestamp comes with its parsed local day. Due dates come as local-midnight instants. The display strings (`MMM d`, `MMM d, yyyy`) and time zones are left out. The `formattedDate` field of a series point is not part of the output record.
- `lastSubmissionDate` and `lastActivity` keep the raw timestamp text, because display formatting is not modelled. Formatting a malformed timestamp there would throw. The model does not capture that exception.
- Floating point: rates are computed exactly. `Math.round` is exact round-half-up, and the assignment `submissionRate` is an exact real. A float tie that rounds the other way is not captured.
- `AdminInsights.GenerateInsights`: the at-risk threshold `atRisk > totalStudents * 0.2` is the exact `5 * atRisk > totalStudents`, not the floating-point product.
- `AdminInsights.GenerateInsights`: the course and teacher tables it receives are unused by the code, so they are not parameters.
- String comparison is code-point order on `seq<char>`. JavaScript compares UTF-16 code units, and the two differ only outside the Basic Multilingual Plane.
- Object key order: records keep insertion order, which holds for the `yyyy-MM-dd` keys and for non-numeric ids. JavaScript lists integer-like keys first, in numeric order, and that reordering is not modelled.
- `Array.prototype.sort` is modelled as a stable insertion sort by an integer key, because the comparators subtract numbers.
- `AdminPerformance.RankedStable`: stated over the negated submission rate, the key the descending sort uses.
- `ClassroomAggregation.AggregateCourseAnalytics`: the input points and rows are values, so "copied, not mutated" holds by construction and is not stated.
- `AdminAtRisk.AccumulateCourse`: accumulates in local variables and writes the record entry once per course. The source updates the shared record field by field; the result is the same.
