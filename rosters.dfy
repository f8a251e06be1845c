/** Appearances of people on course rosters, the way the administrator
    service walks them: course by course, person by person, keeping a record
    keyed by user id whose keys stay in first-appearance order. */
module Rosters {
  import opened Snapshot
  import opened AdminOverview

  /** One appearance of `person` on a roster of `course`. */
  datatype Link = Link(person: Person, course: CourseData)

  function LinkId(l: Link): string
  {
    l.person.userId
  }

  /** The appearances on one roster of one course. */
  function Appearances(persons: seq<Person>, cd: CourseData): (r: seq<Link>)
    ensures |r| == |persons|
    ensures forall k :: 0 <= k < |persons| ==> r[k] == Link(persons[k], cd)
  {
    seq(|persons|, k requires 0 <= k < |persons| => Link(persons[k], cd))
  }

  datatype Role = Teacher | Student

  function Roster(cd: CourseData, role: Role): seq<Person>
  {
    if role == Teacher then cd.teachers else cd.students
  }

  /** Every appearance in the given role, course by course. */
  function Links(cds: seq<CourseData>, role: Role): seq<Link>
  {
    if |cds| == 0 then []
    else Links(cds[..|cds| - 1], role) + Appearances(Roster(cds[|cds| - 1], role), cds[|cds| - 1])
  }

  function LinkIds(links: seq<Link>): set<string>
  {
    set l | l in links :: LinkId(l)
  }

  /** The first appearance of every person, in order of first appearance:
      the entries the keyed record creates. */
  function FirstLinks(links: seq<Link>): seq<Link>
  {
    if |links| == 0 then []
    else
      var first := FirstLinks(links[..|links| - 1]);
      var l := links[|links| - 1];
      if LinkId(l) in LinkIds(first) then first else first + [l]
  }

  /** The courses of every appearance of `userId`, in order (a course that
      lists the person twice occurs twice). */
  function CoursesFor(links: seq<Link>, userId: string): seq<CourseData>
  {
    if |links| == 0 then []
    else
      var l := links[|links| - 1];
      CoursesFor(links[..|links| - 1], userId) + (if LinkId(l) == userId then [l.course] else [])
  }

  /** The first appearances cover every person who appears. */
  lemma {:induction false} FirstLinkIds(links: seq<Link>)
    ensures LinkIds(FirstLinks(links)) == LinkIds(links)
  {
    if |links| > 0 {
      var init, l := links[..|links| - 1], links[|links| - 1];
      FirstLinkIds(init);
      assert links == init + [l];
      assert LinkIds(links) == LinkIds(init) + {LinkId(l)};
      if LinkId(l) !in LinkIds(FirstLinks(init)) {
        assert LinkIds(FirstLinks(init) + [l]) == LinkIds(FirstLinks(init)) + {LinkId(l)};
      }
    }
  }

  /** No person has two first appearances. */
  lemma {:induction false} FirstLinksDistinct(links: seq<Link>)
    ensures var first := FirstLinks(links);
            forall i, j :: 0 <= i < j < |first| ==> LinkId(first[i]) != LinkId(first[j])
  {
    if |links| > 0 {
      var init, l := links[..|links| - 1], links[|links| - 1];
      var prev := FirstLinks(init);
      FirstLinksDistinct(init);
      assert forall i, j :: 0 <= i < j < |FirstLinks(init)| ==> LinkId(FirstLinks(init)[i]) != LinkId(FirstLinks(init)[j]);
      if LinkId(l) in LinkIds(prev) {
        assert FirstLinks(links) == prev;
      } else {
        assert FirstLinks(links) == prev + [l];
        forall i | 0 <= i < |prev|
          ensures LinkId(prev[i]) != LinkId(l)
        {
          assert prev[i] in prev;
        }
      }
    }
  }

  /** `x` is a link of `links` and no earlier link is of its person. */
  ghost predicate EarliestAt(links: seq<Link>, x: Link)
  {
    exists p :: 0 <= p < |links| && links[p] == x && forall q :: 0 <= q < p ==> LinkId(links[q]) != LinkId(x)
  }

  lemma EarliestAtSnoc(links: seq<Link>, l: Link, x: Link)
    requires EarliestAt(links, x)
    ensures EarliestAt(links + [l], x)
  {
    var p :| 0 <= p < |links| && links[p] == x && forall q :: 0 <= q < p ==> LinkId(links[q]) != LinkId(x);
    var s := links + [l];
    assert s[p] == x;
    forall q | 0 <= q < p
      ensures LinkId(s[q]) != LinkId(x)
    {
      assert s[q] == links[q];
    }
  }

  lemma EarliestAtNew(links: seq<Link>, l: Link)
    requires LinkId(l) !in LinkIds(links)
    ensures EarliestAt(links + [l], l)
  {
    var s := links + [l];
    forall q | 0 <= q < |links|
      ensures LinkId(s[q]) != LinkId(l)
    {
      assert s[q] == links[q];
      assert links[q] in links;
    }
    assert s[|links|] == l;
  }

  /** Each first appearance is the earliest link of its person. */
  lemma {:induction false} FirstLinksEarliest(links: seq<Link>)
    ensures forall i :: 0 <= i < |FirstLinks(links)| ==> EarliestAt(links, FirstLinks(links)[i])
  {
    if |links| > 0 {
      var init, l := links[..|links| - 1], links[|links| - 1];
      FirstLinksEarliest(init);
      assert links == init + [l];
      forall i | 0 <= i < |FirstLinks(init)|
        ensures EarliestAt(links, FirstLinks(init)[i])
      {
        EarliestAtSnoc(init, l, FirstLinks(init)[i]);
      }
      if LinkId(l) in LinkIds(FirstLinks(init)) {
        assert FirstLinks(links) == FirstLinks(init);
      } else {
        FirstLinkIds(init);
        EarliestAtNew(init, l);
        assert FirstLinks(links) == FirstLinks(init) + [l];
      }
    }
  }

  /** One entry per person: no person has two, every person who appears has
      one, and each entry is that person's first appearance. */
  lemma FirstLinksFacts(links: seq<Link>)
    ensures var first := FirstLinks(links);
            && (forall i, j :: 0 <= i < j < |first| ==> LinkId(first[i]) != LinkId(first[j]))
            && LinkIds(first) == LinkIds(links)
            && (forall i :: 0 <= i < |first| ==> EarliestAt(links, first[i]))
  {
    FirstLinksDistinct(links);
    FirstLinkIds(links);
    FirstLinksEarliest(links);
  }

  lemma FirstLinksSnoc(links: seq<Link>, l: Link)
    ensures FirstLinks(links + [l]) == if LinkId(l) in LinkIds(FirstLinks(links)) then FirstLinks(links) else FirstLinks(links) + [l]
    ensures CoursesFor(links + [l], LinkId(l)) == CoursesFor(links, LinkId(l)) + [l.course]
    ensures forall id :: id != LinkId(l) ==> CoursesFor(links + [l], id) == CoursesFor(links, id)
  {
    assert (links + [l])[..|links|] == links;
  }

  /** A person who has not appeared yet has no courses. */
  lemma {:induction false} CoursesForAbsent(links: seq<Link>, userId: string)
    requires userId !in LinkIds(links)
    ensures CoursesFor(links, userId) == []
  {
    if |links| > 0 {
      var init := links[..|links| - 1];
      assert LinkIds(init) <= LinkIds(links) by {
        forall l | l in init ensures l in links { }
      }
      CoursesForAbsent(init, userId);
      assert links[|links| - 1] in links;
    }
  }

  // ---------------------------------------------------------------------
  // The keyed record
  // ---------------------------------------------------------------------

  /** The record `m`, whose keys in insertion order are `ids`, holds for
      every person of `links` the entry `entry` builds from that person's
      first appearance and courses so far. */
  ghost predicate Keyed<V>(m: map<string, V>, ids: seq<string>, links: seq<Link>, entry: (Person, seq<CourseData>) -> V)
  {
    var first := FirstLinks(links);
    && |ids| == |first|
    && (forall k :: 0 <= k < |ids| ==>
          ids[k] == LinkId(first[k]) && ids[k] in m && m[ids[k]] == entry(first[k].person, CoursesFor(links, ids[k])))
    && m.Keys == LinkIds(first)
  }

  /** A person appearing for the first time gets a new key, last in order,
      whose entry holds this one course. */
  lemma KeyedNew<V>(m: map<string, V>, ids: seq<string>, links: seq<Link>, entry: (Person, seq<CourseData>) -> V, l: Link)
    requires Keyed(m, ids, links, entry)
    requires LinkId(l) !in m
    ensures Keyed(m[LinkId(l) := entry(l.person, [l.course])], ids + [LinkId(l)], links + [l], entry)
  {
    var id := LinkId(l);
    var first := FirstLinks(links);
    FirstLinkIds(links);
    FirstLinksSnoc(links, l);
    CoursesForAbsent(links, id);
    assert FirstLinks(links + [l]) == first + [l];
    assert LinkIds(first + [l]) == LinkIds(first) + {id};
    var m', ids', first' := m[id := entry(l.person, [l.course])], ids + [id], first + [l];
    forall k | 0 <= k < |ids'|
      ensures ids'[k] == LinkId(first'[k]) && ids'[k] in m'
              && m'[ids'[k]] == entry(first'[k].person, CoursesFor(links + [l], ids'[k]))
    {
      if k < |ids| {
        assert ids'[k] == ids[k] && first'[k] == first[k];
        assert ids[k] != id;
      } else {
        assert CoursesFor(links + [l], id) == [l.course];
      }
    }
  }

  /** A person seen before keeps its key; its entry becomes `v`, which the
      caller shows to be the entry with this course appended. */
  lemma KeyedOld<V>(m: map<string, V>, ids: seq<string>, links: seq<Link>, entry: (Person, seq<CourseData>) -> V, l: Link, v: V)
    requires Keyed(m, ids, links, entry)
    requires LinkId(l) in m
    requires forall k :: 0 <= k < |ids| && ids[k] == LinkId(l) ==>
               v == entry(FirstLinks(links)[k].person, CoursesFor(links, LinkId(l)) + [l.course])
    ensures Keyed(m[LinkId(l) := v], ids, links + [l], entry)
  {
    FirstLinksSnoc(links, l);
  }

  /** Reading the record back in key order. */
  lemma KeyedAt<V>(m: map<string, V>, ids: seq<string>, links: seq<Link>, entry: (Person, seq<CourseData>) -> V)
    requires Keyed(m, ids, links, entry)
    ensures |ids| == |FirstLinks(links)|
    ensures forall k :: 0 <= k < |ids| ==>
              ids[k] in m && m[ids[k]] == entry(FirstLinks(links)[k].person, CoursesFor(links, LinkId(FirstLinks(links)[k])))
  {
  }

  lemma {:induction false} CoursesForConcat(a: seq<Link>, b: seq<Link>, userId: string)
    ensures CoursesFor(a + b, userId) == CoursesFor(a, userId) + CoursesFor(b, userId)
  {
    if |b| > 0 {
      var bi := b[..|b| - 1];
      CoursesForConcat(a, bi, userId);
      var l := b[|b| - 1];
      assert (a + b)[..|a + b| - 1] == a + bi;
      assert (a + b)[|a + b| - 1] == l;
      var tail := if LinkId(l) == userId then [l.course] else [];
      assert CoursesFor(a + b, userId) == CoursesFor(a + bi, userId) + tail;
      assert CoursesFor(b, userId) == CoursesFor(bi, userId) + tail;
    } else {
      assert a + b == a;
    }
  }

  lemma {:induction false} CoursesForAppearances(persons: seq<Person>, cd: CourseData, userId: string)
    ensures forall x :: x in CoursesFor(Appearances(persons, cd), userId) <==> x == cd && userId in PersonIds(persons)
  {
    if |persons| > 0 {
      var init := persons[..|persons| - 1];
      CoursesForAppearances(init, cd, userId);
      assert Appearances(persons, cd)[..|persons| - 1] == Appearances(init, cd);
      assert PersonIds(persons) == PersonIds(init) + {persons[|persons| - 1].userId} by {
        assert persons == init + [persons[|persons| - 1]];
      }
    }
  }

  /** The courses recorded for a person are exactly the courses whose
      roster in that role lists the person. */
  lemma {:induction false} CoursesForMembers(cds: seq<CourseData>, role: Role, userId: string)
    ensures forall cd :: cd in CoursesFor(Links(cds, role), userId) <==> cd in cds && userId in PersonIds(Roster(cd, role))
  {
    if |cds| > 0 {
      var init, last := cds[..|cds| - 1], cds[|cds| - 1];
      CoursesForMembers(init, role, userId);
      CoursesForConcat(Links(init, role), Appearances(Roster(last, role), last), userId);
      CoursesForAppearances(Roster(last, role), last, userId);
      assert cds == init + [last];
    }
  }

  lemma LinksCourse(cds: seq<CourseData>, role: Role, c: nat)
    requires c < |cds|
    ensures Links(cds[..c + 1], role) == Links(cds[..c], role) + Appearances(Roster(cds[c], role), cds[c])
  {
    Prefix(cds, c);
  }

  /** The ids of the people in a role over all courses. */
  function RoleIds(cds: seq<CourseData>, role: Role): set<string>
  {
    if role == Teacher then TeacherIds(cds) else StudentIds(cds)
  }

  /** The people appearing in a role are exactly the teacher or student ids
      the school overview counts. */
  lemma {:induction false} LinkIdsAreRoleIds(cds: seq<CourseData>, role: Role)
    ensures LinkIds(Links(cds, role)) == RoleIds(cds, role)
  {
    if |cds| > 0 {
      var cd := cds[|cds| - 1];
      LinkIdsAreRoleIds(cds[..|cds| - 1], role);
      AppearanceIds(Roster(cd, role), cd);
      LinkIdsConcat(Links(cds[..|cds| - 1], role), Appearances(Roster(cd, role), cd));
    }
  }

  /** Every person of a role has a first appearance, and only they do. */
  lemma FirstAppearanceIds(cds: seq<CourseData>, role: Role)
    ensures var first := FirstLinks(Links(cds, role));
            forall id :: id in RoleIds(cds, role) <==> exists i :: 0 <= i < |first| && LinkId(first[i]) == id
  {
    var first := FirstLinks(Links(cds, role));
    FirstLinkIds(Links(cds, role));
    LinkIdsAreRoleIds(cds, role);
    forall id | id in RoleIds(cds, role)
      ensures exists i :: 0 <= i < |first| && LinkId(first[i]) == id
    {
      var l :| l in first && LinkId(l) == id;
    }
  }

  /** There are as many first appearances as people in the role. */
  lemma FirstAppearanceCount(cds: seq<CourseData>, role: Role)
    ensures |FirstLinks(Links(cds, role))| == |RoleIds(cds, role)|
  {
    var first := FirstLinks(Links(cds, role));
    FirstLinksDistinct(Links(cds, role));
    FirstLinkIds(Links(cds, role));
    LinkIdsAreRoleIds(cds, role);
    DistinctCount(first);
    assert (set i | 0 <= i < |first| :: LinkId(first[i])) == LinkIds(first);
  }

  /** The first appearances in a role are one per distinct person of that
      role over all courses. */
  lemma PeopleOf(cds: seq<CourseData>, role: Role)
    ensures var first := FirstLinks(Links(cds, role));
            && (forall i, j :: 0 <= i < j < |first| ==> LinkId(first[i]) != LinkId(first[j]))
            && (forall id :: id in RoleIds(cds, role) <==> exists i :: 0 <= i < |first| && LinkId(first[i]) == id)
            && |first| == |RoleIds(cds, role)|
  {
    FirstLinksDistinct(Links(cds, role));
    FirstAppearanceIds(cds, role);
    FirstAppearanceCount(cds, role);
  }

  /** Distinct ids number as many as the links. */
  lemma {:induction false} DistinctCount(first: seq<Link>)
    requires forall i, j :: 0 <= i < j < |first| ==> LinkId(first[i]) != LinkId(first[j])
    ensures |set i | 0 <= i < |first| :: LinkId(first[i])| == |first|
  {
    if |first| > 0 {
      var init := first[..|first| - 1];
      DistinctCount(init);
      var a := set i | 0 <= i < |init| :: LinkId(init[i]);
      var b := set i | 0 <= i < |first| :: LinkId(first[i]);
      assert b == a + {LinkId(first[|first| - 1])};
      assert LinkId(first[|first| - 1]) !in a;
    }
  }

  lemma AppearanceIds(persons: seq<Person>, cd: CourseData)
    ensures LinkIds(Appearances(persons, cd)) == PersonIds(persons)
  {
    var a := Appearances(persons, cd);
    forall id | id in PersonIds(persons)
      ensures id in LinkIds(a)
    {
      var k :| 0 <= k < |persons| && persons[k].userId == id;
      assert a[k] in a;
    }
  }

  lemma LinkIdsConcat(a: seq<Link>, b: seq<Link>)
    ensures LinkIds(a + b) == LinkIds(a) + LinkIds(b)
  {
    forall id | id in LinkIds(a + b)
      ensures id in LinkIds(a) + LinkIds(b)
    {
      var l :| l in a + b && LinkId(l) == id;
    }
  }
}
