/**
 * The course loop of `main`: every configured course is visited in order on a
 * freshly loaded page, checked, and, when the check says a slot is open,
 * appended to the run summary and announced with one alert.
 */
module Monitor {
  import opened Classifier
  import opened Notify

  /** The configured courses, in the order they are checked. */
  const CoursesToMonitor: seq<string> := [
    "Advanced (ICITSS) MCS Course",
    "ICITSS - Information Technology",
    "ICITSS - Orientation Course"
  ]

  /**
   * What happened on one course's turn: loading the registration page raised
   * (the course is skipped), or the page loaded and the check ran to `outcome`.
   */
  datatype Visit = NavigationFailed | Navigated(outcome: CheckOutcome)

  /** The check of this visit ran and returned true. */
  predicate SlotFound(v: Visit) {
    v.Navigated? && Check(v.outcome)
  }

  /** The courses whose visit found a slot, in configured order. */
  function AvailableAmong(courses: seq<string>, visits: seq<Visit>): seq<string>
    requires |visits| == |courses|
    decreases |courses|
  {
    if courses == [] then []
    else
      var n := |courses| - 1;
      AvailableAmong(courses[..n], visits[..n]) + (if SlotFound(visits[n]) then [courses[n]] else [])
  }

  /** The alert text for each course, in order. */
  function Alerts(courses: seq<string>): seq<string> {
    seq(|courses|, i requires 0 <= i < |courses| => AlertMessage(courses[i]))
  }

  /**
   * One run over `courses`. `visits[i]` is what loading the page and checking
   * `courses[i]` produced; `delivered` says whether the messaging API accepts a
   * message. Returns the run summary and the alerts sent, in sending order.
   */
  method RunChecks(courses: seq<string>, visits: seq<Visit>, delivered: string -> bool)
    returns (available: seq<string>, notified: seq<string>)
    requires |visits| == |courses|
    ensures available == AvailableAmong(courses, visits)
    ensures notified == Alerts(available)
  {
    available := [];
    notified := [];
    for i := 0 to |courses|
      invariant available == AvailableAmong(courses[..i], visits[..i])
      invariant notified == Alerts(available)
    {
      var course := courses[i];
      ghost var before := AvailableAmong(courses[..i], visits[..i]);
      assert courses[..i + 1][..i] == courses[..i] && courses[..i + 1][i] == course;
      assert visits[..i + 1][..i] == visits[..i] && visits[..i + 1][i] == visits[i];
      assert AvailableAmong(courses[..i + 1], visits[..i + 1]) ==
        before + (if SlotFound(visits[i]) then [course] else []);
      match visits[i]
      case NavigationFailed =>
        // The page load raised: log and continue with the next course.
        assert before + [] == before;
      case Navigated(outcome) =>
        if Check(outcome) {
          available := available + [course];
          var message := AlertMessage(course);
          // Whether the message was delivered is not looked at.
          var sent := delivered(message);
          notified := notified + [message];
        } else {
          assert before + [] == before;
        }
    }
    assert courses[..|courses|] == courses;
    assert visits[..|visits|] == visits;
  }

  // ---------------------------------------------------------------------------
  // Properties of the run
  // ---------------------------------------------------------------------------

  /** The summary of a run over two lists of courses is the two summaries joined. */
  lemma {:induction false} AvailableAppend(a: seq<string>, va: seq<Visit>, b: seq<string>, vb: seq<Visit>)
    requires |va| == |a| && |vb| == |b|
    ensures AvailableAmong(a + b, va + vb) == AvailableAmong(a, va) + AvailableAmong(b, vb)
    decreases |b|
  {
    if b == [] {
      assert a + b == a && va + vb == va;
    } else {
      var n := |b| - 1;
      assert (a + b)[..|a| + n] == a + b[..n];
      assert (va + vb)[..|a| + n] == va + vb[..n];
      AvailableAppend(a, va, b[..n], vb[..n]);
    }
  }

  /** A course is in the summary exactly when some visit to it found a slot. */
  lemma {:induction false} AvailableMembership(courses: seq<string>, visits: seq<Visit>, c: string)
    requires |visits| == |courses|
    ensures c in AvailableAmong(courses, visits) <==>
      exists i :: 0 <= i < |courses| && courses[i] == c && SlotFound(visits[i])
    decreases |courses|
  {
    if courses != [] {
      var n := |courses| - 1;
      AvailableMembership(courses[..n], visits[..n], c);
      if exists i :: 0 <= i < |courses| && courses[i] == c && SlotFound(visits[i]) {
        var i :| 0 <= i < |courses| && courses[i] == c && SlotFound(visits[i]);
        if i < n {
          assert courses[..n][i] == c && SlotFound(visits[..n][i]);
        }
      }
    }
  }

  /** Order-preserving subsequence. */
  ghost predicate IsSubsequence(a: seq<string>, b: seq<string>)
    decreases |b|
  {
    if a == [] then true
    else if b == [] then false
    else
      (a[|a| - 1] == b[|b| - 1] && IsSubsequence(a[..|a| - 1], b[..|b| - 1]))
      || IsSubsequence(a, b[..|b| - 1])
  }

  /** The summary lists courses in their configured order. */
  lemma {:induction false} AvailableIsSubsequence(courses: seq<string>, visits: seq<Visit>)
    requires |visits| == |courses|
    ensures IsSubsequence(AvailableAmong(courses, visits), courses)
    decreases |courses|
  {
    if courses != [] {
      var n := |courses| - 1;
      var prev := AvailableAmong(courses[..n], visits[..n]);
      AvailableIsSubsequence(courses[..n], visits[..n]);
      if SlotFound(visits[n]) {
        var av := prev + [courses[n]];
        assert AvailableAmong(courses, visits) == av;
        assert av[..|av| - 1] == prev && av[|av| - 1] == courses[n];
        assert IsSubsequence(av, courses);
      } else {
        assert AvailableAmong(courses, visits) == prev + [] == prev;
      }
    }
  }

  /** Each course appears in the summary at most as often as it is configured. */
  lemma {:induction false} AvailableWithinConfigured(courses: seq<string>, visits: seq<Visit>)
    requires |visits| == |courses|
    ensures multiset(AvailableAmong(courses, visits)) <= multiset(courses)
    decreases |courses|
  {
    if courses != [] {
      var n := |courses| - 1;
      AvailableWithinConfigured(courses[..n], visits[..n]);
      assert courses == courses[..n] + [courses[n]];
    }
  }

  /**
   * A course whose visit found no slot (navigation raised, the check failed,
   * or the page said no) leaves the summary exactly as if it were not configured.
   */
  lemma SkippedCourseChangesNothing(courses: seq<string>, visits: seq<Visit>, i: nat)
    requires |visits| == |courses| && i < |courses|
    requires !SlotFound(visits[i])
    ensures AvailableAmong(courses, visits) ==
      AvailableAmong(courses[..i] + courses[i + 1..], visits[..i] + visits[i + 1..])
  {
    var c1, c2 := courses[..i], courses[i + 1..];
    var v1, v2 := visits[..i], visits[i + 1..];
    SplitAround(courses, i);
    SplitAround(visits, i);
    AvailableAppend(c1 + [courses[i]], v1 + [visits[i]], c2, v2);
    NotFoundAddsNothing(c1, v1, courses[i], visits[i]);
    AvailableAppend(c1, v1, c2, v2);
  }

  /** A sequence is its part before `i`, its element at `i` and its part after `i`. */
  lemma SplitAround<T>(s: seq<T>, i: nat)
    requires i < |s|
    ensures s == (s[..i] + [s[i]]) + s[i + 1..]
  {
  }

  /** A last course that found no slot adds nothing to the summary. */
  lemma NotFoundAddsNothing(courses: seq<string>, visits: seq<Visit>, c: string, v: Visit)
    requires |visits| == |courses| && !SlotFound(v)
    ensures AvailableAmong(courses + [c], visits + [v]) == AvailableAmong(courses, visits)
  {
    assert (courses + [c])[..|courses|] == courses;
    assert (visits + [v])[..|visits|] == visits;
    assert AvailableAmong(courses, visits) + [] == AvailableAmong(courses, visits);
  }

  /** No two positions hold the same course. */
  ghost predicate Distinct(s: seq<string>) {
    forall i, j :: 0 <= i < j < |s| ==> s[i] != s[j]
  }

  /** Distinct configured courses give a summary without repeats. */
  lemma {:induction false} AvailableDistinct(courses: seq<string>, visits: seq<Visit>)
    requires |visits| == |courses| && Distinct(courses)
    ensures Distinct(AvailableAmong(courses, visits))
    decreases |courses|
  {
    if courses != [] {
      var n := |courses| - 1;
      var prev := AvailableAmong(courses[..n], visits[..n]);
      AvailableDistinct(courses[..n], visits[..n]);
      if SlotFound(visits[n]) {
        AvailableMembership(courses[..n], visits[..n], courses[n]);
        assert courses[n] !in prev;
      }
    }
  }

  /**
   * In a run over the configured list, each course is announced at most once
   * and each alert names a different course.
   */
  lemma ConfiguredRunAlertsOnce(visits: seq<Visit>)
    requires |visits| == |CoursesToMonitor|
    ensures Distinct(AvailableAmong(CoursesToMonitor, visits))
    ensures Distinct(Alerts(AvailableAmong(CoursesToMonitor, visits)))
  {
    assert Distinct(CoursesToMonitor);
    AvailableDistinct(CoursesToMonitor, visits);
    var av := AvailableAmong(CoursesToMonitor, visits);
    forall i, j | 0 <= i < j < |av|
      ensures Alerts(av)[i] != Alerts(av)[j]
    {
      if AlertMessage(av[i]) == AlertMessage(av[j]) {
        AlertMessageInjective(av[i], av[j]);
      }
    }
  }
}

module MonitorScenarios {
  import opened Text
  import opened Classifier
  import opened Notify
  import opened Monitor

  /** Of two courses, only the first found a slot: only it is reported and alerted. */
  lemma OnlyFirstOfTwoFound(a: string, b: string, v1: Visit, v2: Visit)
    requires SlotFound(v1) && !SlotFound(v2)
    ensures AvailableAmong([a, b], [v1, v2]) == [a]
    ensures Alerts(AvailableAmong([a, b], [v1, v2])) == [AlertMessage(a)]
  {
    var courses, visits := [a, b], [v1, v2];
    assert courses[..1] == [a] && visits[..1] == [v1];
    assert [a][..0] == [] && [v1][..0] == [];
    assert AvailableAmong([a], [v1]) == [] + [a];
    assert AvailableAmong(courses, visits) == [a] + [];
    assert Alerts([a])[0] == AlertMessage(a);
  }

  /**
   * Two courses: the first page has no indicator phrase and three rows, the
   * second shows "no batch available" in any case. Exactly the first course
   * is reported, and exactly one alert is sent, for it.
   */
  lemma TwoCourseRun(a: string, b: string, first: Page, second: Page, at: nat)
    requires first.source.Got? && !ShowsNoBatch(first.source.value) && first.rowCount == Got(3)
    requires second.source.Got? && OccursIgnoringCaseAt(second.source.value, NoBatchIndicators[0], at)
    ensures AvailableAmong([a, b], [Navigated(Submitted(first)), Navigated(Submitted(second))]) == [a]
    ensures Alerts(AvailableAmong([a, b], [Navigated(Submitted(first)), Navigated(Submitted(second))])) == [AlertMessage(a)]
  {
    NoBatchPhraseWins(second, 0, at);
    OnlyFirstOfTwoFound(a, b, Navigated(Submitted(first)), Navigated(Submitted(second)));
  }
}
