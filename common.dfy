/** Vocabulary shared by both analytics services: optional values and the
    one failure the aggregation can raise, the round-half-up percentage,
    the three-tier student status, display-name defaults, and the
    lexicographic order on ISO-8601 timestamp strings used to pick the most
    recent activity. */
module Common {

  datatype Option<+T> = None | Some(value: T)

  /** The only failure the aggregation itself raises: date-fns `format`
      applied to a timestamp that did not parse throws a RangeError. */
  datatype Failure = InvalidTimeValue

  datatype Result<+T> = Ok(value: T) | Err(error: Failure)

  function Min(a: int, b: int): int { if a <= b then a else b }

  // ---------------------------------------------------------------------
  // Percentages
  // ---------------------------------------------------------------------

  /** `Math.round((part / whole) * 100)` in exact arithmetic: the integer
      nearest to 100 * part / whole, halves rounded up. */
  function RoundPercent(part: nat, whole: nat): (r: nat)
    requires whole > 0
    ensures 2 * whole * r <= 200 * part + whole < 2 * whole * (r + 1)
  {
    (200 * part + whole) / (2 * whole)
  }

  /** The rounded rate the services report, 0 when the denominator is 0. */
  function Percent(part: nat, whole: nat): (r: nat)
    ensures whole == 0 ==> r == 0
    ensures part <= whole ==> r <= 100
    ensures 0 < whole == part ==> r == 100
    ensures part == 0 ==> r == 0
  {
    if whole > 0 then
      RoundPercentBounds(part, whole);
      RoundPercent(part, whole)
    else 0
  }

  lemma RoundPercentBounds(part: nat, whole: nat)
    requires whole > 0
    ensures part <= whole ==> RoundPercent(part, whole) <= 100
    ensures part == whole ==> RoundPercent(part, whole) == 100
    ensures part == 0 ==> RoundPercent(part, whole) == 0
  {
    var r := RoundPercent(part, whole);
    var d := 2 * whole;
    assert d * r <= 200 * part + whole < d * (r + 1);
    if r >= 101 {
      MulMonotone(d, 101, r);
      assert 200 * part + whole > 200 * whole + whole;
    }
    if part == whole && r <= 99 {
      MulMonotone(d, r + 1, 100);
    }
    if part == 0 && r >= 1 {
      MulMonotone(d, 1, r);
    }
  }

  lemma MulMonotone(c: nat, a: int, b: int)
    requires a <= b
    ensures c * a <= c * b
  {
    assert c * b - c * a == c * (b - a);
  }

  // ---------------------------------------------------------------------
  // Student status
  // ---------------------------------------------------------------------

  datatype Status = Good | AtRisk | Inactive

  /** The three-tier classification of a rounded submission percentage. */
  function Classify(percentage: int): Status
  {
    if percentage >= 80 then Good
    else if percentage >= 50 then AtRisk
    else Inactive
  }

  /** How far a status is from `Good`. */
  function Severity(s: Status): nat
  {
    match s
    case Good => 0
    case AtRisk => 1
    case Inactive => 2
  }

  /** A higher percentage never gives a worse status, and the boundaries
      sit exactly at 50 and 80 (both inclusive lower bounds). */
  lemma ClassifyMonotone(p: int, q: int)
    requires p <= q
    ensures Severity(Classify(q)) <= Severity(Classify(p))
    ensures Classify(80) == Good && Classify(79) == AtRisk
    ensures Classify(50) == AtRisk && Classify(49) == Inactive
  {
  }

  // ---------------------------------------------------------------------
  // Names
  // ---------------------------------------------------------------------

  /** `fullName || fallback`: JavaScript's `||` replaces an empty or absent
      name with the fallback. */
  function DisplayName(fullName: string, fallback: string): string
  {
    if fullName == "" then fallback else fullName
  }

  /** `parts.join(sep)`. */
  function Join(parts: seq<string>, sep: string): (r: string)
    ensures |parts| == 0 ==> r == ""
    ensures |parts| == 1 ==> r == parts[0]
  {
    if |parts| == 0 then ""
    else if |parts| == 1 then parts[0]
    else Join(parts[..|parts| - 1], sep) + sep + parts[|parts| - 1]
  }

  /** Joining two or more names writes the first name, the separator, and
      then the others joined. */
  lemma {:induction false} JoinCons(parts: seq<string>, sep: string)
    requires |parts| >= 2
    ensures Join(parts, sep) == parts[0] + sep + Join(parts[1..], sep)
  {
    var init := parts[..|parts| - 1];
    if |parts| == 2 {
      assert parts[1..] == [parts[1]];
    } else {
      JoinCons(init, sep);
      assert init[1..] == parts[1..][..|parts[1..]| - 1];
      assert parts[1..][|parts[1..]| - 1] == parts[|parts| - 1];
    }
  }

  /** The combined length of the names. */
  function TotalLength(parts: seq<string>): nat
  {
    if |parts| == 0 then 0 else TotalLength(parts[..|parts| - 1]) + |parts[|parts| - 1]|
  }

  /** The joined text holds every name and one separator between each two. */
  lemma {:induction false} JoinLength(parts: seq<string>, sep: string)
    requires |parts| >= 1
    ensures |Join(parts, sep)| == TotalLength(parts) + (|parts| - 1) * |sep|
  {
    if |parts| > 1 {
      JoinLength(parts[..|parts| - 1], sep);
      assert (|parts| - 1) * |sep| == (|parts| - 2) * |sep| + |sep|;
    }
  }

  /** Decimal text of a natural number, as a template literal renders it. */
  function NatToString(n: nat): string
  {
    if n < 10 then [Digit(n)] else NatToString(n / 10) + [Digit(n % 10)]
  }

  function Digit(d: nat): char
    requires d < 10
  {
    "0123456789"[d]
  }

  // ---------------------------------------------------------------------
  // Recency of ISO timestamps
  // ---------------------------------------------------------------------

  /** Strict lexicographic order on strings, as JavaScript's `>` compares two
      strings character by character; a proper prefix comes first. */
  predicate LexLess(a: string, b: string)
  {
    if |a| == 0 then |b| > 0
    else if |b| == 0 then false
    else if a[0] != b[0] then a[0] < b[0]
    else LexLess(a[1..], b[1..])
  }

  lemma {:induction false} LexLessIrreflexive(a: string)
    ensures !LexLess(a, a)
  {
    if |a| > 0 {
      LexLessIrreflexive(a[1..]);
    }
  }

  lemma {:induction false} LexLessTransitive(a: string, b: string, c: string)
    requires LexLess(a, b) && LexLess(b, c)
    ensures LexLess(a, c)
  {
    if |a| > 0 && |b| > 0 && |c| > 0 && a[0] == b[0] && b[0] == c[0] {
      LexLessTransitive(a[1..], b[1..], c[1..]);
    }
  }

  lemma {:induction false} LexLessTotal(a: string, b: string)
    ensures a == b || LexLess(a, b) || LexLess(b, a)
  {
    if |a| > 0 && |b| > 0 && a[0] == b[0] {
      LexLessTotal(a[1..], b[1..]);
      if a[1..] == b[1..] {
        assert a == [a[0]] + a[1..] && b == [b[0]] + b[1..];
      }
    }
  }

  lemma {:induction false} LexLessAsymmetric(a: string, b: string)
    requires LexLess(a, b)
    ensures !LexLess(b, a)
  {
    if LexLess(b, a) {
      LexLessTransitive(a, b, a);
      LexLessIrreflexive(a);
    }
  }

  /** One step of `if (t && (!last || t > last)) last = t`. */
  function Later(last: Option<string>, t: string): Option<string>
  {
    if t != "" && (last.None? || LexLess(last.value, t)) then Some(t) else last
  }

  /** The running maximum after scanning `ts` in order, starting from `acc`. */
  function LatestFrom(acc: Option<string>, ts: seq<string>): Option<string>
  {
    if |ts| == 0 then acc else Later(LatestFrom(acc, ts[..|ts| - 1]), ts[|ts| - 1])
  }

  /** Scanning one more timestamp is one more step of the running maximum. */
  lemma LatestFromSnoc(acc: Option<string>, ts: seq<string>, t: string)
    ensures LatestFrom(acc, ts + [t]) == Later(LatestFrom(acc, ts), t)
  {
    assert (ts + [t])[..|ts|] == ts;
  }

  /** Scanning two runs of timestamps one after the other is scanning
      them joined. */
  lemma {:induction false} LatestFromConcat(acc: Option<string>, a: seq<string>, b: seq<string>)
    ensures LatestFrom(acc, a + b) == LatestFrom(LatestFrom(acc, a), b)
  {
    if |b| == 0 {
      assert a + b == a;
    } else {
      var init, t := b[..|b| - 1], b[|b| - 1];
      assert a + b == (a + init) + [t];
      assert b == init + [t];
      LatestFromConcat(acc, a, init);
      LatestFromSnoc(acc, a + init, t);
      LatestFromSnoc(LatestFrom(acc, a), init, t);
    }
  }

  /** The most recent non-empty timestamp of `ts`, if any. */
  function Latest(ts: seq<string>): Option<string>
  {
    LatestFrom(None, ts)
  }

  /** True when `m` is a lexicographic upper bound of the non-empty strings of `ts`. */
  ghost predicate UpperBound(m: string, ts: seq<string>)
  {
    forall i :: 0 <= i < |ts| && ts[i] != "" ==> !LexLess(m, ts[i])
  }

  /** The running maximum is absent exactly when the start is absent and
      every timestamp is empty; otherwise it is the start or one of the
      non-empty timestamps, and no non-empty timestamp is later. */
  lemma {:induction false} LatestFromIsMaximum(acc: Option<string>, ts: seq<string>)
    requires acc.Some? ==> acc.value != ""
    ensures var m := LatestFrom(acc, ts);
            && (m.None? <==> acc.None? && forall i :: 0 <= i < |ts| ==> ts[i] == "")
            && (m.Some? ==> m.value != "" && UpperBound(m.value, ts))
            && (m.Some? ==> m == acc || exists i :: 0 <= i < |ts| && ts[i] == m.value)
            && (m.Some? && acc.Some? ==> !LexLess(m.value, acc.value))
  {
    if |ts| > 0 {
      var init := ts[..|ts| - 1];
      var t := ts[|ts| - 1];
      LatestFromIsMaximum(acc, init);
      var prev := LatestFrom(acc, init);
      var m := LatestFrom(acc, ts);
      assert m == Later(prev, t);
      if m.Some? {
        if m == Some(t) && t != "" && (prev.None? || LexLess(prev.value, t)) {
          // t replaced the previous maximum, which bounds everything before it
          forall i | 0 <= i < |ts| && ts[i] != ""
            ensures !LexLess(t, ts[i])
          {
            if i < |ts| - 1 {
              assert ts[i] == init[i];
              assert prev.Some?;
              LexLessAsymmetric(prev.value, t);
              if LexLess(t, ts[i]) {
                LexLessTransitive(prev.value, t, ts[i]);
              }
            } else {
              LexLessIrreflexive(t);
            }
          }
          if acc.Some? {
            assert prev.Some?;
            if LexLess(t, acc.value) {
              LexLessTransitive(prev.value, t, acc.value);
            }
          }
          assert ts[|ts| - 1] == m.value;
        } else {
          assert m == prev;
          forall i | 0 <= i < |ts| && ts[i] != ""
            ensures !LexLess(m.value, ts[i])
          {
            if i < |ts| - 1 {
              assert ts[i] == init[i];
            }
          }
          if m != acc {
            var k :| 0 <= k < |init| && init[k] == m.value;
            assert ts[k] == m.value;
          }
        }
      } else {
        forall i | 0 <= i < |ts|
          ensures ts[i] == ""
        {
          if i < |ts| - 1 {
            assert ts[i] == init[i];
          }
        }
      }
      if acc.None? && forall i :: 0 <= i < |ts| ==> ts[i] == "" {
        assert forall i :: 0 <= i < |init| ==> init[i] == ts[i];
      }
    } else if acc.Some? {
      LexLessIrreflexive(acc.value);
    }
  }
}
