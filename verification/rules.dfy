/** The validation rule registry of the validation page: the rule record, its status
    lifecycle, the per-rule state updates of a run, the derived counts and the
    report gate. Every update is keyed by rule id, as on the page. */
module Rules {
  import opened Options

  datatype Status = Pending | Validating | Passed | Failed

  /** `passed` and `failed` end one validation of a rule. */
  predicate IsTerminal(s: Status) {
    s == Passed || s == Failed
  }

  /** One validation rule; the icon is presentation and is not modelled. */
  datatype Rule = Rule(
    id: string,
    name: string,
    description: string,
    status: Status,
    details: Option<string>,
    errorDetails: Option<string>)

  /** The static part of a rule, which no update may touch. */
  predicate SameMetadata(a: Rule, b: Rule) {
    a.id == b.id && a.name == b.name && a.description == b.description
  }

  function Ids(rules: seq<Rule>): seq<string> {
    seq(|rules|, i requires 0 <= i < |rules| => rules[i].id)
  }

  predicate Distinct<T(==)>(s: seq<T>) {
    forall i, j :: 0 <= i < j < |s| ==> s[i] != s[j]
  }

  function NewRule(id: string, name: string, description: string): Rule {
    Rule(id, name, description, Pending, None, None)
  }

  /** The rule list the page starts with. */
  function Registry(): (r: seq<Rule>)
    ensures |r| == 6
    ensures Ids(r) == ["layout", "barcode", "dimensions", "colors", "quality", "compliance"]
    ensures Distinct(Ids(r))
    ensures forall i :: 0 <= i < |r| ==>
              r[i].status == Pending && r[i].details == None && r[i].errorDetails == None
  {
    [ NewRule("layout", "Layout Verification", "Checking document layout and structure"),
      NewRule("barcode", "Barcode Placement", "Verifying barcode position and readability"),
      NewRule("dimensions", "Dimension Compliance", "Checking size and margin requirements"),
      NewRule("colors", "Color Profile", "Validating color spaces and profiles"),
      NewRule("quality", "Print Quality", "Analyzing resolution and print readiness"),
      NewRule("compliance", "Regulatory Compliance", "Checking industry standards compliance") ]
  }

  /** The first update of a run: every rule back to `pending`. Only the status is
      overwritten; the details of an earlier run stay attached. */
  function Reset(rules: seq<Rule>): (r: seq<Rule>)
    ensures |r| == |rules|
    ensures forall i :: 0 <= i < |r| ==>
              && r[i].status == Pending
              && SameMetadata(r[i], rules[i])
              && r[i].details == rules[i].details
              && r[i].errorDetails == rules[i].errorDetails
  {
    seq(|rules|, i requires 0 <= i < |rules| => rules[i].(status := Pending))
  }

  /** Marks every rule whose id is `id` as `validating`; the others are untouched. */
  function MarkValidating(rules: seq<Rule>, id: string): (r: seq<Rule>)
    ensures |r| == |rules|
    ensures forall i :: 0 <= i < |r| && rules[i].id != id ==> r[i] == rules[i]
    ensures forall i :: 0 <= i < |r| && rules[i].id == id ==>
              && r[i].status == Validating
              && SameMetadata(r[i], rules[i])
              && r[i].details == rules[i].details
              && r[i].errorDetails == rules[i].errorDetails
  {
    seq(|rules|, i requires 0 <= i < |rules| =>
      if rules[i].id == id then rules[i].(status := Validating) else rules[i])
  }

  /** ASCII lower-casing, standing in for `toLowerCase` on the registry's names. */
  function LowerChar(c: char): char {
    if 'A' <= c <= 'Z' then (c as int + 32) as char else c
  }

  function Lower(s: string): string {
    seq(|s|, i requires 0 <= i < |s| => LowerChar(s[i]))
  }

  const FailureDetailPrefix := "Issues found in "
  const SuccessDetailSuffix := " completed successfully"
  const ErrorDetailPrefix := "Example error: "
  const ErrorDetailSuffix :=
    " failed validation criteria. Please review and adjust according to specifications."

  /** The rule record a run commits for `rule` once its verdict is known. */
  function Verdict(rule: Rule, passed: bool): (r: Rule)
    ensures SameMetadata(r, rule)
    ensures IsTerminal(r.status)
    ensures r.status == Passed <==> passed
    ensures r.details.Some?
    ensures passed ==> r.details.value == rule.name + SuccessDetailSuffix && r.errorDetails == None
    ensures !passed ==> r.details.value == FailureDetailPrefix + Lower(rule.name)
    ensures !passed <==> r.errorDetails.Some?
    ensures !passed ==> r.errorDetails.value == ErrorDetailPrefix + rule.description + ErrorDetailSuffix
  {
    if passed then
      rule.(status := Passed, details := Some(rule.name + SuccessDetailSuffix), errorDetails := None)
    else
      rule.(status := Failed,
            details := Some(FailureDetailPrefix + Lower(rule.name)),
            errorDetails := Some(ErrorDetailPrefix + rule.description + ErrorDetailSuffix))
  }

  /** Replaces every rule whose id is `rule.id` by the verdict record built from
      `rule` (the snapshot copy of the rule being validated). */
  function Commit(rules: seq<Rule>, rule: Rule, passed: bool): (r: seq<Rule>)
    ensures |r| == |rules|
    ensures Ids(r) == Ids(rules)
    ensures forall i :: 0 <= i < |r| && rules[i].id != rule.id ==> r[i] == rules[i]
    ensures forall i :: 0 <= i < |r| && rules[i].id == rule.id ==>
              && r[i] == Verdict(rule, passed)
              && IsTerminal(r[i].status) && (r[i].status == Passed <==> passed)
  {
    seq(|rules|, i requires 0 <= i < |rules| =>
      if rules[i].id == rule.id then Verdict(rule, passed) else rules[i])
  }

  /** Number of rules whose status is `st`. */
  function Count(rules: seq<Rule>, st: Status): (n: nat)
    ensures n <= |rules|
    ensures n == 0 <==> forall i :: 0 <= i < |rules| ==> rules[i].status != st
  {
    if |rules| == 0 then 0
    else (if rules[0].status == st then 1 else 0) + Count(rules[1..], st)
  }

  predicate AllHaveStatus(rules: seq<Rule>, st: Status) {
    forall i :: 0 <= i < |rules| ==> rules[i].status == st
  }

  /** A status count equals the length exactly when every rule has that status. */
  lemma {:induction false} CountAll(rules: seq<Rule>, st: Status)
    ensures Count(rules, st) == |rules| <==> AllHaveStatus(rules, st)
  {
    if |rules| > 0 {
      CountAll(rules[1..], st);
      if Count(rules, st) == |rules| {
        assert rules[0].status == st;
        assert forall i :: 1 <= i < |rules| ==> rules[i].status == rules[1..][i - 1].status;
      } else {
        assert !(rules[0].status == st && forall i :: 0 <= i < |rules[1..]| ==> rules[1..][i].status == st);
      }
    }
  }

  function PassedCount(rules: seq<Rule>): nat { Count(rules, Passed) }
  function FailedCount(rules: seq<Rule>): nat { Count(rules, Failed) }
  function TotalCount(rules: seq<Rule>): nat { |rules| }

  /** Every rule is counted under exactly one status. */
  lemma {:induction false} CountPartition(rules: seq<Rule>)
    ensures Count(rules, Pending) + Count(rules, Validating)
            + Count(rules, Passed) + Count(rules, Failed) == |rules|
  {
    if |rules| > 0 {
      CountPartition(rules[1..]);
    }
  }

  /** The counters shown on the page never exceed the number of rules. */
  lemma CountsBounded(rules: seq<Rule>)
    ensures PassedCount(rules) + FailedCount(rules) <= TotalCount(rules)
    ensures PassedCount(rules) + FailedCount(rules) == TotalCount(rules)
            <==> forall i :: 0 <= i < |rules| ==> IsTerminal(rules[i].status)
  {
    CountPartition(rules);
    assert Count(rules, Pending) + Count(rules, Validating) == 0
           <==> forall i :: 0 <= i < |rules| ==> IsTerminal(rules[i].status);
  }

  /** The summary card and the counter badges appear once some rule has a verdict. */
  predicate SummaryShown(rules: seq<Rule>) {
    PassedCount(rules) > 0 || FailedCount(rules) > 0
  }

  /** The "Download Validation Report" button: inside the summary card, and only
      when no rule has failed. */
  function ReportAvailable(rules: seq<Rule>): (r: bool)
    ensures r <==> PassedCount(rules) > 0 && FailedCount(rules) == 0
    ensures r ==> exists i :: 0 <= i < |rules| && rules[i].status == Passed
    ensures r ==> forall i :: 0 <= i < |rules| ==> rules[i].status != Failed
  {
    SummaryShown(rules) && FailedCount(rules) == 0
  }

  /** Before any verdict the summary and the report button are hidden; a reset
      brings the page back to that state. */
  lemma ReportHiddenWhilePending(rules: seq<Rule>)
    requires forall i :: 0 <= i < |rules| ==> rules[i].status == Pending
    ensures !SummaryShown(rules) && !ReportAvailable(rules)
  {
  }

  lemma ResetHidesReport(rules: seq<Rule>)
    ensures !SummaryShown(Reset(rules)) && !ReportAvailable(Reset(rules))
  {
  }

  /** With distinct ids, marking the rule at `k` changes that element alone. */
  lemma MarkValidatingTouchesOne(rules: seq<Rule>, k: nat)
    requires Distinct(Ids(rules)) && k < |rules|
    ensures var r := MarkValidating(rules, rules[k].id);
            && Ids(r) == Ids(rules)
            && r[k] == rules[k].(status := Validating)
            && forall i :: 0 <= i < |rules| && i != k ==> r[i] == rules[i]
  {
    var r := MarkValidating(rules, rules[k].id);
    forall i | 0 <= i < |rules| && i != k
      ensures r[i] == rules[i]
    {
      assert Ids(rules)[i] != Ids(rules)[k];
    }
  }

  /** With distinct ids, committing the verdict of the rule at `k` changes that
      element alone. */
  lemma CommitTouchesOne(rules: seq<Rule>, k: nat, passed: bool)
    requires Distinct(Ids(rules)) && k < |rules|
    ensures var r := Commit(rules, rules[k], passed);
            && r[k] == Verdict(rules[k], passed)
            && forall i :: 0 <= i < |rules| && i != k ==> r[i] == rules[i]
  {
    var r := Commit(rules, rules[k], passed);
    forall i | 0 <= i < |rules| && i != k
      ensures r[i] == rules[i]
    {
      assert Ids(rules)[i] != Ids(rules)[k];
    }
  }
}
