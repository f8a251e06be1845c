/** The 30-day engagement series both services build: one zero-initialised
    bucket per calendar day from 29 days ago to today, in chronological
    order, incremented once per submitted entry whose update time falls on
    that day. */
module Engagement {
  import opened Common
  import opened Snapshot
  import opened AnalyticsTypes

  const WindowDays: nat := 30

  /** The first day of the window that ends `today`. */
  function WindowStart(today: int): int
  {
    today - (WindowDays - 1)
  }

  /** A submitted entry with an update time, the only kind that is dated. */
  predicate Dated(s: Submission)
  {
    IsSubmitted(s) && s.updateTime != ""
  }

  /** A dated entry whose update time does not parse. */
  predicate Unparseable(s: Submission)
  {
    Dated(s) && s.updateDay.None?
  }

  /** The entry increments the bucket of day `d`. */
  predicate CountsOn(s: Submission, d: int)
  {
    Dated(s) && s.updateDay == Some(d)
  }

  /** Entries that increment the bucket of day `d`. */
  function DayCount(subs: seq<Submission>, d: int): nat
  {
    if |subs| == 0 then 0
    else DayCount(subs[..|subs| - 1], d) + (if CountsOn(subs[|subs| - 1], d) then 1 else 0)
  }

  /** Dated entries whose day lies in the `n` days starting at `lo`. */
  function RangeCount(subs: seq<Submission>, lo: int, n: nat): nat
  {
    if |subs| == 0 then 0
    else
      var s := subs[|subs| - 1];
      RangeCount(subs[..|subs| - 1], lo, n)
        + (if Dated(s) && s.updateDay.Some? && lo <= s.updateDay.value < lo + n then 1 else 0)
  }

  /** Dated entries, parseable or not. */
  function DatedCount(subs: seq<Submission>): nat
  {
    if |subs| == 0 then 0
    else DatedCount(subs[..|subs| - 1]) + (if Dated(subs[|subs| - 1]) then 1 else 0)
  }

  /** The buckets of the `n` days starting at `lo`, oldest first. */
  function SeriesFrom(subs: seq<Submission>, lo: int, n: nat): seq<EngagementPoint>
  {
    if n == 0 then []
    else SeriesFrom(subs, lo, n - 1) + [EngagementPoint(lo + n - 1, DayCount(subs, lo + n - 1))]
  }

  /** The engagement series of `subs` for the 30 days ending `today`. */
  function Series(subs: seq<Submission>, today: int): seq<EngagementPoint>
  {
    SeriesFrom(subs, WindowStart(today), WindowDays)
  }

  /** Sum of the counts of a series. */
  function TotalOf(points: seq<EngagementPoint>): nat
  {
    if |points| == 0 then 0 else TotalOf(points[..|points| - 1]) + points[|points| - 1].submissions
  }

  lemma {:induction false} SeriesFromAt(subs: seq<Submission>, lo: int, n: nat, k: nat)
    requires k < n
    ensures |SeriesFrom(subs, lo, n)| == n
    ensures SeriesFrom(subs, lo, n)[k] == EngagementPoint(lo + k, DayCount(subs, lo + k))
  {
    if k < n - 1 {
      SeriesFromAt(subs, lo, n - 1, k);
    } else if n > 1 {
      SeriesFromAt(subs, lo, n - 1, 0);
    }
  }

  /** The series has exactly 30 entries, one per day from 29 days before
      `today` up to `today`, each holding the number of entries counted on
      that day. */
  lemma SeriesShape(subs: seq<Submission>, today: int)
    ensures |Series(subs, today)| == WindowDays
    ensures Series(subs, today)[0].date == today - 29
    ensures Series(subs, today)[WindowDays - 1].date == today
    ensures forall k :: 0 <= k < WindowDays ==>
              Series(subs, today)[k] == EngagementPoint(today - 29 + k, DayCount(subs, today - 29 + k))
  {
    SeriesFromAt(subs, WindowStart(today), WindowDays, 0);
    forall k | 0 <= k < WindowDays
      ensures |Series(subs, today)| == WindowDays
      ensures Series(subs, today)[k] == EngagementPoint(today - 29 + k, DayCount(subs, today - 29 + k))
    {
      SeriesFromAt(subs, WindowStart(today), WindowDays, k);
    }
  }

  /** Consecutive entries are consecutive days, so the series is strictly
      chronological. */
  lemma SeriesChronological(subs: seq<Submission>, today: int)
    ensures forall i, j :: 0 <= i < j < |Series(subs, today)| ==>
              Series(subs, today)[i].date < Series(subs, today)[j].date
  {
    SeriesShape(subs, today);
  }

  lemma {:induction false} RangeCountStep(subs: seq<Submission>, lo: int, n: nat)
    ensures RangeCount(subs, lo, n + 1) == RangeCount(subs, lo, n) + DayCount(subs, lo + n)
  {
    if |subs| > 0 {
      RangeCountStep(subs[..|subs| - 1], lo, n);
    }
  }

  lemma {:induction false} RangeCountBound(subs: seq<Submission>, lo: int, n: nat)
    ensures RangeCount(subs, lo, n) <= DatedCount(subs)
  {
    if |subs| > 0 {
      RangeCountBound(subs[..|subs| - 1], lo, n);
    }
  }

  lemma {:induction false} TotalOfSeriesFrom(subs: seq<Submission>, lo: int, n: nat)
    ensures TotalOf(SeriesFrom(subs, lo, n)) == RangeCount(subs, lo, n)
  {
    if n == 0 {
      RangeCountEmpty(subs, lo);
    } else {
      TotalOfSeriesFrom(subs, lo, n - 1);
      RangeCountStep(subs, lo, n - 1);
      var s := SeriesFrom(subs, lo, n);
      assert s[..|s| - 1] == SeriesFrom(subs, lo, n - 1);
    }
  }

  lemma {:induction false} RangeCountEmpty(subs: seq<Submission>, lo: int)
    ensures RangeCount(subs, lo, 0) == 0
  {
    if |subs| > 0 {
      RangeCountEmpty(subs[..|subs| - 1], lo);
    }
  }

  /** The series counts every dated entry whose day lies in the window,
      exactly once; so its total never exceeds the number of dated entries
      (entries outside the window or with unparseable times add nothing). */
  lemma SeriesTotal(subs: seq<Submission>, today: int)
    ensures TotalOf(Series(subs, today)) == RangeCount(subs, today - 29, 30)
    ensures TotalOf(Series(subs, today)) <= DatedCount(subs)
  {
    TotalOfSeriesFrom(subs, WindowStart(today), WindowDays);
    RangeCountBound(subs, WindowStart(today), WindowDays);
  }

  /** An entry whose time does not parse is counted on no day. */
  lemma {:induction false} UnparseableNeverCounted(subs: seq<Submission>, s: Submission, d: int)
    requires Unparseable(s)
    ensures DayCount(subs + [s], d) == DayCount(subs, d)
  {
    assert (subs + [s])[..|subs|] == subs;
  }
}
