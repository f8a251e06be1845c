/** The insight cards of the admin dashboard: a verdict on the school's
    submission rate, a warning when many students are at risk, and a
    closing note on the size of the school. */
module AdminInsights {
  import opened Common
  import opened AnalyticsTypes
  import opened AdminOverview

  const HighRateText := "Your school maintains a high submission rate across all courses."
  const LowRateText := "Consider implementing engagement strategies to improve assignment completion."
  const AtRiskText := " students need additional support to stay on track."

  /** The community note: how many teachers run how many courses. */
  function CommunityText(teachers: nat, courses: nat): string
  {
    NatToString(teachers) + " teachers actively managing " + NatToString(courses) + " courses."
  }

  /** The rate as the cards show it. */
  function CompletionText(rate: nat): string
  {
    NatToString(rate) + "% completion"
  }

  /** The four cards, each with its fixed wording and the overview's figures
      filled in; `id` is one of "1" to "4". */
  function Card(o: SchoolOverview, id: string): Insight
  {
    if id == "1" then
      Insight("1", Positive, "Excellent Submission Rate", HighRateText, Some(CompletionText(o.overallSubmissionRate)), Some(5))
    else if id == "2" then
      Insight("2", Warning, "Low Submission Rate", LowRateText, Some(CompletionText(o.overallSubmissionRate)), Some(-8))
    else if id == "3" then
      Insight("3", Warning, "High At-Risk Student Count", NatToString(o.atRiskStudentsCount) + AtRiskText, None, None)
    else
      Insight("4", Info, "Active Learning Community", CommunityText(o.totalTeachers, o.totalCourses), None, None)
  }

  /** More than a fifth of the students are at risk. */
  predicate ManyAtRisk(o: SchoolOverview)
  {
    5 * o.atRiskStudentsCount > o.totalStudents
  }

  /** `generateInsights`: the rate card when the rate is high or low, the
      at-risk card when many are at risk, and always the closing card. */
  function Insights(o: SchoolOverview): seq<Insight>
  {
    (if o.overallSubmissionRate >= 80 then [Card(o, "1")]
     else if o.overallSubmissionRate < 60 then [Card(o, "2")]
     else [])
    + (if ManyAtRisk(o) then [Card(o, "3")] else [])
    + [Card(o, "4")]
  }

  predicate HasCard(insights: seq<Insight>, id: string)
  {
    exists i :: 0 <= i < |insights| && insights[i].id == id
  }

  method GenerateInsights(overview: SchoolOverview) returns (insights: seq<Insight>)
    ensures insights == Insights(overview)
  {
    insights := [];
    if overview.overallSubmissionRate >= 80 {
      insights := insights + [Insight("1", Positive, "Excellent Submission Rate", HighRateText,
                                      Some(CompletionText(overview.overallSubmissionRate)), Some(5))];
    } else if overview.overallSubmissionRate < 60 {
      insights := insights + [Insight("2", Warning, "Low Submission Rate", LowRateText,
                                      Some(CompletionText(overview.overallSubmissionRate)), Some(-8))];
    }
    if overview.atRiskStudentsCount * 5 > overview.totalStudents {
      insights := insights + [Insight("3", Warning, "High At-Risk Student Count",
                                      NatToString(overview.atRiskStudentsCount) + AtRiskText, None, None)];
    }
    insights := insights + [Insight("4", Info, "Active Learning Community",
                                    CommunityText(overview.totalTeachers, overview.totalCourses), None, None)];
  }

  /** Each card shows exactly when its condition holds, and the two rate
      cards never together. */
  lemma InsightsPresence(o: SchoolOverview)
    ensures var r := Insights(o);
            && (HasCard(r, "1") <==> o.overallSubmissionRate >= 80)
            && (HasCard(r, "2") <==> o.overallSubmissionRate < 60)
            && !(HasCard(r, "1") && HasCard(r, "2"))
            && (HasCard(r, "3") <==> ManyAtRisk(o))
            && HasCard(r, "4")
  {
    var r := Insights(o);
    if o.overallSubmissionRate >= 80 {
      assert r[0].id == "1";
    } else if o.overallSubmissionRate < 60 {
      assert r[0].id == "2";
    }
    if ManyAtRisk(o) {
      assert r[|r| - 2].id == "3";
    }
    assert r[|r| - 1].id == "4";
  }

  /** One to three cards, each the stock card of its id, the warnings being
      cards 2 and 3, and the closing card always last. */
  lemma InsightsShape(o: SchoolOverview)
    ensures var r := Insights(o);
            && 1 <= |r| <= 3
            && r[|r| - 1] == Card(o, "4")
            && (forall i :: 0 <= i < |r| ==> r[i] == Card(o, r[i].id))
            && (forall i :: 0 <= i < |r| ==> (r[i].kind == Warning <==> r[i].id == "2" || r[i].id == "3"))
  {
  }

  /** Each id appears once, in increasing order. */
  lemma InsightsOrder(o: SchoolOverview)
    ensures var r := Insights(o);
            forall i, j :: 0 <= i < j < |r| ==> LexLess(r[i].id, r[j].id)
  {
    var r := Insights(o);
    assert forall i :: 0 <= i < |r| ==> r[i].id in {"1", "2", "3", "4"};
    forall i, j | 0 <= i < j < |r|
      ensures LexLess(r[i].id, r[j].id)
    {
      assert LexLess("1", "3") && LexLess("1", "4") && LexLess("2", "3") && LexLess("2", "4") && LexLess("3", "4");
    }
  }

  /** A school without courses is warned about its submission rate of 0 and
      told it has no teachers and no courses. */
  lemma EmptySchoolInsights()
    ensures var o := OverviewOf([]);
            Insights(o) == [Card(o, "2"), Card(o, "4")]
    ensures Card(OverviewOf([]), "4").description == "0 teachers actively managing 0 courses."
  {
    EmptyOverview();
    NoCommunity();
  }

  lemma NoCommunity()
    ensures CommunityText(0, 0) == "0 teachers actively managing 0 courses."
  {
    assert NatToString(0) == "0";
    assert CommunityText(0, 0) == "0" + " teachers actively managing " + "0" + " courses.";
  }
}
