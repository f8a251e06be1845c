/** The records the analytics services return (the teacher-side types and
    the school-wide types). Display-only strings (formatted dates) are not
    part of the model: dates are day numbers and timestamps stay raw. */
module AnalyticsTypes {
  import opened Common

  /** Course totals. */
  datatype AnalyticsSummary = AnalyticsSummary(
    totalStudents: nat,
    totalAssignments: nat,
    totalSubmissions: nat,
    lateSubmissions: nat,
    missingSubmissions: nat)

  /** One day of an engagement series: `date` is the day number behind the
      `yyyy-MM-dd` key; the `MMM d` label is not modelled. */
  datatype EngagementPoint = EngagementPoint(date: int, submissions: nat)

  /** One row per piece of coursework. `missingCount` is a plain subtraction
      and `submissionRate` an unrounded real percentage. */
  datatype AssignmentAnalytics = AssignmentAnalytics(
    id: string,
    title: string,
    dueMidnight: Option<int>,
    maxPoints: Option<int>,
    submittedCount: nat,
    missingCount: int,
    lateCount: nat,
    totalStudents: nat,
    submissionRate: real)

  /** One row per student. `lastSubmissionDate` is the raw update time of the
      most recent counted submission. */
  datatype StudentAnalytics = StudentAnalytics(
    userId: string,
    name: string,
    email: Option<string>,
    photoUrl: Option<string>,
    submissionPercentage: nat,
    submittedCount: nat,
    missingCount: int,
    lateCount: nat,
    lastSubmissionDate: Option<string>,
    status: Status)

  datatype CourseAnalytics = CourseAnalytics(
    courseId: string,
    courseName: string,
    summary: AnalyticsSummary,
    engagementData: seq<EngagementPoint>,
    assignmentStats: seq<AssignmentAnalytics>,
    studentProgress: seq<StudentAnalytics>)

  /** One row per course of the school-wide report. `lastActivity` is the raw
      update time of the most recent submission. */
  datatype CoursePerformance = CoursePerformance(
    courseId: string,
    courseName: string,
    teacherName: string,
    teacherEmail: Option<string>,
    studentCount: nat,
    assignmentCount: nat,
    submissionRate: nat,
    lateRate: nat,
    atRiskStudents: nat,
    lastActivity: Option<string>)

  datatype TeacherPerformance = TeacherPerformance(
    userId: string,
    name: string,
    email: Option<string>,
    photoUrl: Option<string>,
    coursesCount: nat,
    totalStudents: nat,
    totalAssignments: nat,
    averageSubmissionRate: nat,
    averageLateRate: nat)

  datatype SchoolOverview = SchoolOverview(
    totalCourses: nat,
    activeCourses: nat,
    totalTeachers: nat,
    totalStudents: nat,
    totalAssignments: nat,
    totalSubmissions: nat,
    overallSubmissionRate: nat,
    overallLateRate: nat,
    atRiskStudentsCount: nat,
    inactiveStudentsCount: nat)

  datatype InsightKind = Positive | Warning | Info

  datatype Insight = Insight(
    id: string,
    kind: InsightKind,
    title: string,
    description: string,
    metric: Option<string>,
    change: Option<int>)
}
