/** One press of "Validate Artwork": reset every rule, then walk the rules of the
    click-time list in order, marking each `validating` and committing its verdict.
    The random verdict of the page is an input here, one boolean per rule. */
module ValidationRun {
  import opened Rules

  /** The part of the validation page a run writes: the rule list and the flag
      that disables the trigger. */
  datatype Screen = Screen(rules: seq<Rule>, isValidating: bool)

  /** The "Validate Artwork" button is clickable exactly when no run is going on. */
  predicate TriggerEnabled(s: Screen) {
    !s.isValidating
  }

  /** Rule list after the first `done` rules of a run have their verdicts and the
      rest are still `pending`. */
  function Partial(snapshot: seq<Rule>, verdicts: seq<bool>, done: nat): seq<Rule>
    requires |verdicts| == |snapshot| && done <= |snapshot|
  {
    seq(|snapshot|, j requires 0 <= j < |snapshot| =>
      if j < done then Verdict(snapshot[j], verdicts[j]) else snapshot[j].(status := Pending))
  }

  /** Rule list at the end of a run: each rule carries the verdict drawn for it. */
  function Final(snapshot: seq<Rule>, verdicts: seq<bool>): seq<Rule>
    requires |verdicts| == |snapshot|
  {
    Partial(snapshot, verdicts, |snapshot|)
  }

  /** One loop iteration acting on the partially validated list. */
  lemma {:induction false} StepAdvances(snapshot: seq<Rule>, verdicts: seq<bool>, i: nat)
    requires Distinct(Ids(snapshot))
    requires |verdicts| == |snapshot| && i < |snapshot|
    ensures var marked := MarkValidating(Partial(snapshot, verdicts, i), snapshot[i].id);
            && Ids(marked) == Ids(snapshot)
            && marked[i].status == Validating
            && Commit(marked, snapshot[i], verdicts[i]) == Partial(snapshot, verdicts, i + 1)
  {
    var cur := Partial(snapshot, verdicts, i);
    var marked := MarkValidating(cur, snapshot[i].id);
    var next := Commit(marked, snapshot[i], verdicts[i]);
    var want := Partial(snapshot, verdicts, i + 1);
    forall j | 0 <= j < |snapshot|
      ensures marked[j].id == snapshot[j].id
      ensures next[j] == want[j]
    {
      assert cur[j].id == snapshot[j].id;
      if j != i {
        assert Ids(snapshot)[i] != Ids(snapshot)[j];
      }
    }
    assert Ids(marked) == Ids(snapshot);
  }

  /** The rule list in the `k`-th state of a run, for 0 < k <= 2 * |snapshot|:
      odd states mark rule k / 2, even states hold the verdicts of rules below k / 2. */
  function Visited(snapshot: seq<Rule>, verdicts: seq<bool>, k: nat): seq<Rule>
    requires |verdicts| == |snapshot| && 0 < k <= 2 * |snapshot|
  {
    if k % 2 == 1 then MarkValidating(Partial(snapshot, verdicts, k / 2), snapshot[k / 2].id)
    else Partial(snapshot, verdicts, k / 2)
  }

  /** What the states recorded in the first `i` iterations of a run satisfy. */
  predicate TraceSoFar(snapshot: seq<Rule>, verdicts: seq<bool>, trace: seq<Screen>, i: nat)
    requires |verdicts| == |snapshot| && i <= |snapshot|
  {
    && |trace| == 2 * i + 1
    && trace[0].rules == Reset(snapshot)
    && (forall k :: 0 <= k < |trace| ==> trace[k].isValidating)
    && (forall k :: 0 <= k < |trace| ==>
          |trace[k].rules| == |snapshot| && Ids(trace[k].rules) == Ids(snapshot))
    && (forall k :: 0 < k < |trace| ==> trace[k].rules == Visited(snapshot, verdicts, k))
    && (forall k :: 0 <= k < |trace| && k % 2 == 1 ==> trace[k].rules[k / 2].status == Validating)
  }

  /** One iteration appends the `validating` mark of rule i and its verdict. */
  lemma ExtendTrace(snapshot: seq<Rule>, verdicts: seq<bool>, trace: seq<Screen>, i: nat)
    requires Distinct(Ids(snapshot))
    requires |verdicts| == |snapshot| && i < |snapshot|
    requires TraceSoFar(snapshot, verdicts, trace, i)
    requires trace[|trace| - 1].rules == Partial(snapshot, verdicts, i)
    ensures var marked := MarkValidating(Partial(snapshot, verdicts, i), snapshot[i].id);
            var next := Commit(marked, snapshot[i], verdicts[i]);
            && next == Partial(snapshot, verdicts, i + 1)
            && TraceSoFar(snapshot, verdicts, trace + [Screen(marked, true), Screen(next, true)], i + 1)
  {
    StepAdvances(snapshot, verdicts, i);
    var marked := MarkValidating(Partial(snapshot, verdicts, i), snapshot[i].id);
    var next := Commit(marked, snapshot[i], verdicts[i]);
    var t := trace + [Screen(marked, true), Screen(next, true)];
    assert (2 * i + 1) / 2 == i && (2 * i + 2) / 2 == i + 1;
    assert Ids(next) == Ids(snapshot);
    forall k | 0 <= k < |t|
      ensures t[k].isValidating
      ensures |t[k].rules| == |snapshot| && Ids(t[k].rules) == Ids(snapshot)
      ensures 0 < k ==> t[k].rules == Visited(snapshot, verdicts, k)
      ensures k % 2 == 1 ==> t[k].rules[k / 2].status == Validating
    {
      if k < |trace| { assert t[k] == trace[k]; }
    }
  }

  /** Closing the trace of a completed loop with the state whose flag is down. */
  lemma FinishTrace(snapshot: seq<Rule>, verdicts: seq<bool>, body: seq<Screen>)
    requires |verdicts| == |snapshot|
    requires TraceSoFar(snapshot, verdicts, body, |snapshot|)
    requires body[|body| - 1].rules == Final(snapshot, verdicts)
    ensures var trace := body + [Screen(Final(snapshot, verdicts), false)];
            && (forall k :: 0 <= k < |trace| - 1 ==> trace[k].isValidating)
            && (forall k :: 0 <= k < |trace| ==>
                  |trace[k].rules| == |snapshot| && Ids(trace[k].rules) == Ids(snapshot))
            && (forall k :: 0 <= k < |trace| - 1 && k % 2 == 1 ==>
                  trace[k].rules[k / 2].status == Validating)
            && (forall i :: 0 <= i < |snapshot| ==>
                  && trace[2 * i + 1].rules == MarkValidating(Partial(snapshot, verdicts, i), snapshot[i].id)
                  && trace[2 * i + 2].rules == Partial(snapshot, verdicts, i + 1))
  {
    var trace := body + [Screen(Final(snapshot, verdicts), false)];
    forall k | 0 <= k < |body|
      ensures trace[k] == body[k]
    {
    }
    forall m | 0 <= m < |snapshot|
      ensures trace[2 * m + 1].rules == MarkValidating(Partial(snapshot, verdicts, m), snapshot[m].id)
      ensures trace[2 * m + 2].rules == Partial(snapshot, verdicts, m + 1)
    {
      assert (2 * m + 1) / 2 == m && (2 * m + 2) / 2 == m + 1;
      assert body[2 * m + 1].rules == Visited(snapshot, verdicts, 2 * m + 1);
      assert body[2 * m + 2].rules == Visited(snapshot, verdicts, 2 * m + 2);
    }
  }

  /** The run loop. `snapshot` is the rule list when the button was clicked;
      `trace` holds one state per state update: the reset, then for each rule its
      `validating` mark and its verdict, then the end of the run. */
  method HandleValidation(snapshot: seq<Rule>, verdicts: seq<bool>) returns (trace: seq<Screen>)
    requires Distinct(Ids(snapshot))
    requires |verdicts| == |snapshot|
    ensures |trace| == 2 * |snapshot| + 2
    ensures trace[0].rules == Reset(snapshot)
    ensures forall k :: 0 <= k < |trace| - 1 ==> trace[k].isValidating && !TriggerEnabled(trace[k])
    ensures TriggerEnabled(trace[|trace| - 1])
    ensures forall k :: 0 <= k < |trace| ==>
              |trace[k].rules| == |snapshot| && Ids(trace[k].rules) == Ids(snapshot)
    ensures forall k :: 0 <= k < |trace| - 1 && k % 2 == 1 ==>
              trace[k].rules[k / 2].status == Validating
    ensures forall i :: 0 <= i < |snapshot| ==>
              && trace[2 * i + 1].rules == MarkValidating(Partial(snapshot, verdicts, i), snapshot[i].id)
              && trace[2 * i + 2].rules == Partial(snapshot, verdicts, i + 1)
    ensures trace[|trace| - 1].rules == Final(snapshot, verdicts)
  {
    var cur := Reset(snapshot);
    assert cur == Partial(snapshot, verdicts, 0);
    trace := [Screen(cur, true)];
    var i := 0;
    while i < |snapshot|
      invariant 0 <= i <= |snapshot|
      invariant cur == Partial(snapshot, verdicts, i)
      invariant TraceSoFar(snapshot, verdicts, trace, i)
      invariant trace[|trace| - 1].rules == cur
    {
      ExtendTrace(snapshot, verdicts, trace, i);
      var marked := MarkValidating(cur, snapshot[i].id);
      cur := Commit(marked, snapshot[i], verdicts[i]);
      trace := trace + [Screen(marked, true), Screen(cur, true)];
      i := i + 1;
    }
    FinishTrace(snapshot, verdicts, trace);
    trace := trace + [Screen(cur, false)];
  }

  /** At the end of a run every rule has a verdict, it is the one drawn for it,
      and the static data of each rule is unchanged. */
  lemma FinalRulesTerminal(snapshot: seq<Rule>, verdicts: seq<bool>)
    requires |verdicts| == |snapshot|
    ensures var f := Final(snapshot, verdicts);
            && |f| == |snapshot|
            && forall j :: 0 <= j < |f| ==>
                 && IsTerminal(f[j].status)
                 && (f[j].status == Passed <==> verdicts[j])
                 && SameMetadata(f[j], snapshot[j])
    ensures PassedCount(Final(snapshot, verdicts)) + FailedCount(Final(snapshot, verdicts))
            == TotalCount(snapshot)
  {
    CountsBounded(Final(snapshot, verdicts));
  }

  /** Number of `false` entries: the failures a run over `verdicts` produces. */
  function Misses(verdicts: seq<bool>): (n: nat)
    ensures n <= |verdicts|
    ensures n == 0 <==> forall j :: 0 <= j < |verdicts| ==> verdicts[j]
  {
    if |verdicts| == 0 then 0
    else (if verdicts[0] then 0 else 1) + Misses(verdicts[1..])
  }

  /** The failed counter after a run is the number of failing verdicts. */
  lemma {:induction false} FinalFailedCount(snapshot: seq<Rule>, verdicts: seq<bool>)
    requires |verdicts| == |snapshot|
    ensures FailedCount(Final(snapshot, verdicts)) == Misses(verdicts)
    ensures PassedCount(Final(snapshot, verdicts)) == |snapshot| - Misses(verdicts)
    decreases |snapshot|
  {
    var f := Final(snapshot, verdicts);
    if |snapshot| > 0 {
      FinalFailedCount(snapshot[1..], verdicts[1..]);
      assert f[1..] == Final(snapshot[1..], verdicts[1..]);
    }
    FinalRulesTerminal(snapshot, verdicts);
  }

  /** After a run the report button is offered exactly when every verdict passed
      (and there was at least one rule). */
  lemma ReportAfterRun(snapshot: seq<Rule>, verdicts: seq<bool>)
    requires |verdicts| == |snapshot|
    ensures ReportAvailable(Final(snapshot, verdicts))
            <==> |snapshot| > 0 && forall j :: 0 <= j < |verdicts| ==> verdicts[j]
  {
    FinalFailedCount(snapshot, verdicts);
  }

  /** The closing notification of a run. */
  datatype Toast = AllPassed | IssuesFound(issues: nat)

  /** The closing notification as the page computes it: from the counts of the
      rule list captured when the button was clicked, not of the list the run
      produced. Rules still pending count as issues. */
  function SnapshotToast(snapshot: seq<Rule>): (t: Toast)
    ensures t == AllPassed <==> AllHaveStatus(snapshot, Passed)
    ensures t.IssuesFound? ==>
              t.issues == Count(snapshot, Pending) + Count(snapshot, Validating)
                          + Count(snapshot, Failed) > 0
  {
    CountPartition(snapshot);
    CountAll(snapshot, Passed);
    var passed := PassedCount(snapshot);
    if passed == |snapshot| then AllPassed else IssuesFound(|snapshot| - passed)
  }

  /** The first run from the initial registry: every verdict passes and the report
      button appears, yet the page announces six issues. */
  lemma SnapshotToastMisreportsFirstRun()
    ensures var verdicts := [true, true, true, true, true, true];
            && ReportAvailable(Final(Registry(), verdicts))
            && PassedCount(Final(Registry(), verdicts)) == 6
            && SnapshotToast(Registry()) == IssuesFound(6)
  {
    var verdicts := [true, true, true, true, true, true];
    FinalFailedCount(Registry(), verdicts);
    assert Misses(verdicts) == 0;
    ReportHiddenWhilePending(Registry());
  }

  /** The closing notification computed from the rule list the run produced. */
  function FinalToast(snapshot: seq<Rule>, verdicts: seq<bool>): (t: Toast)
    requires |verdicts| == |snapshot|
    ensures t == AllPassed <==> forall j :: 0 <= j < |verdicts| ==> verdicts[j]
    ensures t.IssuesFound? ==> t.issues == Misses(verdicts) > 0
  {
    FinalFailedCount(snapshot, verdicts);
    var passed := PassedCount(Final(snapshot, verdicts));
    if passed == |snapshot| then AllPassed else IssuesFound(|snapshot| - passed)
  }

  /** As written, the notice of a run is the notice the previous run should have
      given: pressing the button again after a run reports that run's verdicts. */
  lemma NextRunReportsPreviousVerdicts(snapshot: seq<Rule>, verdicts: seq<bool>)
    requires |verdicts| == |snapshot|
    ensures SnapshotToast(Final(snapshot, verdicts)) == FinalToast(snapshot, verdicts)
  {
  }
}
