/** Assessing one candidate (ranker.go): eligibility rules with nested groups, then additive score rules.
    Conditions are evaluated outside this model; an evaluator maps a condition to its outcome. */
module RankerAssess {
  import opened Wrappers
  import opened Outcomes
  import opened RankerOrder
  import opened Folds

  type Evaluator = nat -> Outcome

  datatype GroupMode = GroupAll | GroupAny | GroupNone

  datatype Rule = Rule(disabled: bool, condition: Option<nat>, group: Option<Group>, score: real)

  datatype Group = Group(mode: GroupMode, rules: seq<Rule>)

  datatype ScoreRule = ScoreRule(
    condition: Option<nat>, metric: string, weight: real, lowerBetter: bool, raw: bool, min: real, max: real)

  /** `hasNative` says which conditions have a compiled native form; `maxFloat` is the default fallback rank. */
  datatype Ranker = Ranker(
    rules: seq<Rule>, scores: seq<ScoreRule>, strict: bool, priorityPath: string, specificityPath: string,
    fallbackPath: string, costPath: string, weightPath: string, hasNative: nat -> bool, maxFloat: real)

  /** A candidate with its facts: how its conditions evaluate on either path, and its numeric metrics. */
  datatype Candidate = Candidate(
    id: string, name: string, native: Evaluator, interpreted: Evaluator, metric: string -> Option<real>)

  datatype Compare = Compare(
    priority: real, specificity: real, fallback: real, cost: real, priorityOK: bool, costOK: bool)

  // ---------- what the rules mean ----------

  /** The outcome of one rule. The condition and the group are both evaluated. */
  function RuleOutcome(rule: Rule, ev: Evaluator): Outcome
    decreases rule, 1
  {
    if rule.disabled then Holds
    else
      var c := if rule.condition.Some? then ev(rule.condition.value) else Holds;
      if c == Error then Error
      else
        var g := if rule.group.Some? then GroupOutcome(rule.group.value.mode, rule.group.value.rules, ev) else Holds;
        if g == Error then Error
        else if c == Holds && g == Holds then Holds else Fails
  }

  /** The outcome of a group: members run in order up to the first that decides. */
  function GroupOutcome(mode: GroupMode, rules: seq<Rule>, ev: Evaluator): Outcome
    decreases rules, 0
  {
    if rules == [] then
      if mode == GroupAny then Fails else Holds
    else
      match RuleOutcome(rules[0], ev)
      case Error => Error
      case Holds => if mode == GroupAny then Holds else if mode == GroupNone then Fails
                    else GroupOutcome(mode, rules[1..], ev)
      case Fails => if mode == GroupAll then Fails else GroupOutcome(mode, rules[1..], ev)
  }

  /** Without errors a group is the quantifier its mode names. */
  lemma {:induction false} GroupMeaning(mode: GroupMode, rules: seq<Rule>, ev: Evaluator)
    requires forall k :: 0 <= k < |rules| ==> RuleOutcome(rules[k], ev) != Error
    ensures GroupOutcome(mode, rules, ev) != Error
    ensures GroupOutcome(mode, rules, ev) == Holds <==>
            match mode
            case GroupAll => forall k :: 0 <= k < |rules| ==> RuleOutcome(rules[k], ev) == Holds
            case GroupAny => exists k :: 0 <= k < |rules| && RuleOutcome(rules[k], ev) == Holds
            case GroupNone => forall k :: 0 <= k < |rules| ==> RuleOutcome(rules[k], ev) != Holds
  {
    if rules != [] {
      var rest := rules[1..];
      assert forall k :: 0 <= k < |rest| ==> rest[k] == rules[k + 1];
      assert forall k :: 1 <= k < |rules| ==> rules[k] == rest[k - 1];
      GroupMeaning(mode, rest, ev);
    }
  }

  /** Evaluators that agree on every condition cannot be told apart by a rule, however deep its groups. */
  lemma {:induction false} RuleOutcomeAgrees(rule: Rule, ev: Evaluator, ev': Evaluator)
    requires forall c :: ev(c) == ev'(c)
    ensures RuleOutcome(rule, ev) == RuleOutcome(rule, ev')
    decreases rule, 1
  {
    if rule.group.Some? {
      GroupOutcomeAgrees(rule.group.value.mode, rule.group.value.rules, ev, ev');
    }
  }

  lemma {:induction false} GroupOutcomeAgrees(mode: GroupMode, rules: seq<Rule>, ev: Evaluator, ev': Evaluator)
    requires forall c :: ev(c) == ev'(c)
    ensures GroupOutcome(mode, rules, ev) == GroupOutcome(mode, rules, ev')
    decreases rules, 0
  {
    if rules != [] {
      RuleOutcomeAgrees(rules[0], ev, ev');
      GroupOutcomeAgrees(mode, rules[1..], ev, ev');
    }
  }

  // ---------- scores ----------

  function Clamp(x: real): real {
    if x < 0.0 then 0.0 else if x > 1.0 then 1.0 else x
  }

  function NormalizeScore(value: real, rule: ScoreRule): real {
    if !rule.raw && rule.max > rule.min then
      var v := Clamp((value - rule.min) / (rule.max - rule.min));
      if rule.lowerBetter then 1.0 - v else v
    else if rule.lowerBetter then -value else value
  }

  /** A scaled score lies between 0 and 1 with the bounds at its ends, and a better metric never scores less, scaled or
      not, in either direction. */
  lemma NormalizeOrdered(worse: real, better: real, rule: ScoreRule)
    requires if rule.lowerBetter then better <= worse else worse <= better
    ensures NormalizeScore(worse, rule) <= NormalizeScore(better, rule)
    ensures !rule.raw && rule.max > rule.min ==>
              && 0.0 <= NormalizeScore(better, rule) <= 1.0
              && NormalizeScore(rule.min, rule) == (if rule.lowerBetter then 1.0 else 0.0)
              && NormalizeScore(rule.max, rule) == (if rule.lowerBetter then 0.0 else 1.0)
  {
    if !rule.raw && rule.max > rule.min {
      var width := rule.max - rule.min;
      Quotients(worse - rule.min, better - rule.min, width);
      Quotients(better - rule.min, worse - rule.min, width);
      assert (rule.max - rule.min) / width == 1.0;
    }
  }

  /** Between the bounds a scaled score is the share of the way, from the worse end; unscaled it is the metric, negated
      when lower is better. */
  lemma NormalizeExactly(value: real, share: real, rule: ScoreRule)
    ensures !rule.raw && rule.max > rule.min && 0.0 <= share <= 1.0
            && value == rule.min + share * (rule.max - rule.min) ==>
              NormalizeScore(value, rule) == if rule.lowerBetter then 1.0 - share else share
    ensures rule.raw || rule.max <= rule.min ==>
              NormalizeScore(value, rule) == if rule.lowerBetter then -value else value
  {
    if !rule.raw && rule.max > rule.min && value == rule.min + share * (rule.max - rule.min) {
      ShareOf(value - rule.min, share, rule.max - rule.min);
    }
  }

  lemma ShareOf(part: real, share: real, width: real)
    requires width > 0.0 && part == share * width
    ensures part / width == share
  {
    var q := part / width;
    assert q * width == share * width;
    assert (q - share) * width == 0.0;
  }

  lemma Quotients(a: real, b: real, width: real)
    requires width > 0.0
    ensures a <= b ==> a / width <= b / width
  {
    var p, q := a / width, b / width;
    assert p * width == a && q * width == b;
    if p > q {
      assert (p - q) * width > 0.0;
    }
  }

  function Points(value: real, rule: ScoreRule): real {
    NormalizeScore(value, rule) * rule.weight
  }

  function CompareValues(r: Ranker, c: Candidate): Compare {
    Compare(
      c.metric(r.priorityPath).GetOr(0.0), c.metric(r.specificityPath).GetOr(0.0),
      c.metric(r.fallbackPath).GetOr(r.maxFloat), c.metric(r.costPath).GetOr(0.0),
      c.metric(r.priorityPath).Some?, c.metric(r.costPath).Some?)
  }

  /** `scoreMetricValue`: the two cached metrics are taken from the comparison values. */
  function ScoreMetricValue(r: Ranker, score: ScoreRule, c: Candidate, cmp: Compare): Option<real> {
    if score.metric == r.priorityPath && cmp.priorityOK then Some(cmp.priority)
    else if score.metric == r.costPath && cmp.costOK then Some(cmp.cost)
    else c.metric(score.metric)
  }

  /** The cache is invisible. */
  lemma ScoreMetricValueIsMetric(r: Ranker, score: ScoreRule, c: Candidate)
    ensures ScoreMetricValue(r, score, c, CompareValues(r, c)) == c.metric(score.metric)
  {
  }

  // ---------- assessing a candidate ----------

  /** The rules in order: the score so far and whether all held. */
  function RunRules(rules: seq<Rule>, ev: Evaluator, score: real)
    : (Outcome, real)
  {
    if rules == [] then (Holds, score)
    else
      match RuleOutcome(rules[0], ev)
      case Error => (Error, score)
      case Fails => (Fails, score)
      case Holds => RunRules(rules[1..], ev, score + rules[0].score)
  }

  /** One score rule; a missing metric disqualifies in strict mode and is skipped otherwise. */
  function ScoreStep(s: ScoreRule, strict: bool, ev: Evaluator, metric: string -> Option<real>, score: real)
    : (Outcome, real)
  {
    var applies := if s.condition.Some? then ev(s.condition.value) else Holds;
    var value := metric(s.metric);
    if applies == Error then (Error, score)
    else if applies == Fails then (Holds, score)
    else if value.None? then (if strict then Fails else Holds, score)
    else (Holds, score + Points(value.value, s))
  }

  function RunScores(scores: seq<ScoreRule>, strict: bool, ev: Evaluator, metric: string -> Option<real>, score: real)
    : (Outcome, real)
    decreases |scores|
  {
    if scores == [] then (Holds, score)
    else
      var step := ScoreStep(scores[0], strict, ev, metric, score);
      if step.0 != Holds then step else RunScores(scores[1..], strict, ev, metric, step.1)
  }

  /** The outcome and score of a candidate. */
  function Assessment(r: Ranker, c: Candidate, ev: Evaluator): (Outcome, real) {
    var rules := RunRules(r.rules, ev, 0.0);
    if rules.0 != Holds then rules else RunScores(r.scores, r.strict, ev, c.metric, rules.1)
  }

  function ResultOf(r: Ranker, c: Candidate, eligible: bool, score: real): CandidateResult {
    var cmp := CompareValues(r, c);
    CandidateResult(c.id, c.name, eligible, score, cmp.priority, cmp.specificity, cmp.fallback, cmp.cost)
  }

  /** The candidate's entry in a ranking, or none when a condition failed to evaluate. */
  function Assessed(r: Ranker, c: Candidate, ev: Evaluator): Option<CandidateResult> {
    var a := Assessment(r, c, ev);
    if a.0 == Error then None else Some(ResultOf(r, c, a.0 == Holds, a.1))
  }

  lemma {:induction false} RunRulesAgrees(rules: seq<Rule>, ev: Evaluator, ev': Evaluator, score: real)
    requires forall c :: ev(c) == ev'(c)
    ensures RunRules(rules, ev, score) == RunRules(rules, ev', score)
    decreases |rules|
  {
    if rules != [] {
      RuleOutcomeAgrees(rules[0], ev, ev');
      RunRulesAgrees(rules[1..], ev, ev', score + rules[0].score);
    }
  }

  lemma {:induction false} RunScoresAgrees(
    scores: seq<ScoreRule>, strict: bool, ev: Evaluator, ev': Evaluator, metric: string -> Option<real>, score: real)
    requires forall c :: ev(c) == ev'(c)
    ensures RunScores(scores, strict, ev, metric, score) == RunScores(scores, strict, ev', metric, score)
    decreases |scores|
  {
    if scores != [] {
      RunScoresAgrees(scores[1..], strict, ev, ev', metric, ScoreStep(scores[0], strict, ev, metric, score).1);
    }
  }

  /** A condition without a native form is interpreted on the native path too. */
  function NativeEvaluator(r: Ranker, c: Candidate): Evaluator {
    (n: nat) => if r.hasNative(n) then c.native(n) else c.interpreted(n)
  }

  // ---------- which path ----------

  /** Every condition of the rule, however deep in its groups, has a native form. */
  predicate NativeRule(r: Ranker, rule: Rule)
    decreases rule
  {
    && (rule.condition.Some? ==> r.hasNative(rule.condition.value))
    && (rule.group.Some? ==> forall k :: 0 <= k < |rule.group.value.rules| ==> NativeRule(r, rule.group.value.rules[k]))
  }

  predicate NativeScore(r: Ranker, score: ScoreRule) {
    score.condition.Some? ==> r.hasNative(score.condition.value)
  }

  predicate AllNative(r: Ranker) {
    && (forall k :: 0 <= k < |r.rules| ==> NativeRule(r, r.rules[k]))
    && (forall k :: 0 <= k < |r.scores| ==> NativeScore(r, r.scores[k]))
  }

  method CanRuleRankNative(r: Ranker, rule: Rule) returns (ok: bool)
    ensures ok <==> NativeRule(r, rule)
    decreases rule
  {
    if rule.condition.Some? && !r.hasNative(rule.condition.value) {
      return false;
    }
    if rule.group.None? {
      return true;
    }
    var children := rule.group.value.rules;
    for i := 0 to |children|
      invariant forall k :: 0 <= k < i ==> NativeRule(r, children[k])
    {
      ok := CanRuleRankNative(r, children[i]);
      if !ok {
        return false;
      }
    }
    ok := true;
  }

  /** `canRankNative`. */
  method CanRankNative(r: Ranker) returns (ok: bool)
    ensures ok <==> AllNative(r)
  {
    for i := 0 to |r.rules|
      invariant forall k :: 0 <= k < i ==> NativeRule(r, r.rules[k])
    {
      ok := CanRuleRankNative(r, r.rules[i]);
      if !ok {
        return false;
      }
    }
    for i := 0 to |r.scores|
      invariant forall k :: 0 <= k < i ==> NativeScore(r, r.scores[k])
    {
      if r.scores[i].condition.Some? && !r.hasNative(r.scores[i].condition.value) {
        return false;
      }
    }
    ok := true;
  }

  /** The native and the interpreted form of every condition give the same outcome. */
  ghost predicate EvaluatesAlike(r: Ranker, c: Candidate) {
    forall n :: r.hasNative(n) ==> c.native(n) == c.interpreted(n)
  }

  lemma AssessmentAgrees(r: Ranker, c: Candidate)
    requires EvaluatesAlike(r, c)
    ensures Assessment(r, c, NativeEvaluator(r, c)) == Assessment(r, c, c.interpreted)
  {
    var ev := NativeEvaluator(r, c);
    RunRulesAgrees(r.rules, ev, c.interpreted, 0.0);
    var start := RunRules(r.rules, ev, 0.0).1;
    RunScoresAgrees(r.scores, r.strict, ev, c.interpreted, c.metric, start);
  }

  // ---------- what an assessment means ----------

  /** A rule holds, or fails, with nothing on the way to that going wrong: what is evaluated is the condition, then the
      members of the group up to the one that decides. */
  ghost predicate RuleHolds(rule: Rule, ev: Evaluator)
    decreases rule, 1
  {
    rule.disabled || (ConditionIs(rule, ev, Holds) && (rule.group.Some? ==> GroupHolds(rule.group.value, ev)))
  }

  ghost predicate RuleFails(rule: Rule, ev: Evaluator)
    decreases rule, 1
  {
    && !rule.disabled
    && (ConditionIs(rule, ev, Holds) || ConditionIs(rule, ev, Fails))
    && (rule.group.Some? ==> GroupHolds(rule.group.value, ev) || GroupFails(rule.group.value, ev))
    && (ConditionIs(rule, ev, Fails) || (rule.group.Some? && GroupFails(rule.group.value, ev)))
  }

  /** A rule without a condition is one whose condition holds. */
  predicate ConditionIs(rule: Rule, ev: Evaluator, out: Outcome) {
    if rule.condition.Some? then ev(rule.condition.value) == out else out == Holds
  }

  /** The first `n` rules hold. */
  ghost predicate FirstHold(rules: seq<Rule>, n: nat, ev: Evaluator)
    requires n <= |rules|
    decreases rules
  {
    forall k :: 0 <= k < n ==> RuleHolds(rules[k], ev)
  }

  ghost predicate FirstFail(rules: seq<Rule>, n: nat, ev: Evaluator)
    requires n <= |rules|
    decreases rules
  {
    forall k :: 0 <= k < n ==> RuleFails(rules[k], ev)
  }

  ghost predicate GroupHolds(group: Group, ev: Evaluator)
    decreases group, 0
  {
    var rules := group.rules;
    match group.mode
    case GroupAll => forall k :: 0 <= k < |rules| ==> RuleHolds(rules[k], ev)
    case GroupAny => exists k :: 0 <= k < |rules| && RuleHolds(rules[k], ev) && FirstFail(rules, k, ev)
    case GroupNone => forall k :: 0 <= k < |rules| ==> RuleFails(rules[k], ev)
  }

  ghost predicate GroupFails(group: Group, ev: Evaluator)
    decreases group, 0
  {
    var rules := group.rules;
    match group.mode
    case GroupAll => exists k :: 0 <= k < |rules| && RuleFails(rules[k], ev) && FirstHold(rules, k, ev)
    case GroupAny => forall k :: 0 <= k < |rules| ==> RuleFails(rules[k], ev)
    case GroupNone => exists k :: 0 <= k < |rules| && RuleHolds(rules[k], ev) && FirstFail(rules, k, ev)
  }

  lemma {:induction false} RuleOutcomeExactly(rule: Rule, ev: Evaluator)
    ensures RuleOutcome(rule, ev) == Holds <==> RuleHolds(rule, ev)
    ensures RuleOutcome(rule, ev) == Fails <==> RuleFails(rule, ev)
    decreases rule, 1
  {
    if rule.group.Some? {
      GroupOutcomeExactly(rule.group.value, ev);
    }
  }

  lemma {:induction false} GroupOutcomeExactly(group: Group, ev: Evaluator)
    ensures GroupOutcome(group.mode, group.rules, ev) == Holds <==> GroupHolds(group, ev)
    ensures GroupOutcome(group.mode, group.rules, ev) == Fails <==> GroupFails(group, ev)
    decreases group, 0
  {
    hide RuleOutcome, RuleHolds, RuleFails;
    forall k | 0 <= k < |group.rules|
      ensures RuleOutcome(group.rules[k], ev) == Holds <==> RuleHolds(group.rules[k], ev)
      ensures RuleOutcome(group.rules[k], ev) == Fails <==> RuleFails(group.rules[k], ev)
    {
      RuleOutcomeExactly(group.rules[k], ev);
    }
    var k := GroupDecides(group.mode, group.rules, ev);
  }

  /** A group runs up to the first member that does not carry it on. */
  lemma {:induction false} GroupDecides(mode: GroupMode, rules: seq<Rule>, ev: Evaluator) returns (k: nat)
    ensures k <= |rules|
    ensures forall j :: 0 <= j < k ==> RuleOutcome(rules[j], ev) == if mode == GroupAll then Holds else Fails
    ensures k == |rules| ==> GroupOutcome(mode, rules, ev) == if mode == GroupAny then Fails else Holds
    ensures k < |rules| ==>
              && RuleOutcome(rules[k], ev) != (if mode == GroupAll then Holds else Fails)
              && GroupOutcome(mode, rules, ev) == if RuleOutcome(rules[k], ev) == Error then Error
                                                  else if mode == GroupAny then Holds else Fails
  {
    hide RuleOutcome;
    k := 0;
    if rules != [] && RuleOutcome(rules[0], ev) == if mode == GroupAll then Holds else Fails {
      var m := GroupDecides(mode, rules[1..], ev);
      k := m + 1;
      assert forall j :: 1 <= j < |rules| ==> rules[j] == rules[1..][j - 1];
    }
  }

  function RuleScores(rules: seq<Rule>): seq<real> {
    seq(|rules|, k requires 0 <= k < |rules| => rules[k].score)
  }

  predicate ScoreErrs(s: ScoreRule, ev: Evaluator) {
    s.condition.Some? && ev(s.condition.value) == Error
  }

  predicate ScoreApplies(s: ScoreRule, ev: Evaluator) {
    s.condition.Some? ==> ev(s.condition.value) == Holds
  }

  /** A metric that strict mode asks for and the candidate lacks. */
  predicate Lacks(s: ScoreRule, strict: bool, ev: Evaluator, metric: string -> Option<real>) {
    strict && ScoreApplies(s, ev) && metric(s.metric).None?
  }

  /** What one score rule adds. */
  function Contribution(s: ScoreRule, ev: Evaluator, metric: string -> Option<real>): real {
    if ScoreApplies(s, ev) && metric(s.metric).Some? then NormalizeScore(metric(s.metric).value, s) * s.weight else 0.0
  }

  function Contributions(scores: seq<ScoreRule>, ev: Evaluator, metric: string -> Option<real>): seq<real> {
    seq(|scores|, k requires 0 <= k < |scores| => Contribution(scores[k], ev, metric))
  }

  /** The first `n` score rules go through. */
  predicate FirstScored(scores: seq<ScoreRule>, n: nat, strict: bool, ev: Evaluator, metric: string -> Option<real>)
    requires n <= |scores|
  {
    forall k :: 0 <= k < n ==> !ScoreErrs(scores[k], ev) && !Lacks(scores[k], strict, ev, metric)
  }

  /** Every rule is disabled or holds, no score rule's condition errs and in strict mode no metric is lacking. */
  ghost predicate IsEligible(r: Ranker, c: Candidate, ev: Evaluator) {
    FirstHold(r.rules, |r.rules|, ev) && FirstScored(r.scores, |r.scores|, r.strict, ev, c.metric)
  }

  /** Rule `n` is the first that does not hold. */
  ghost predicate StopsAtRule(r: Ranker, ev: Evaluator, n: int) {
    0 <= n < |r.rules| && !RuleHolds(r.rules[n], ev) && FirstHold(r.rules, n, ev)
  }

  /** Every rule holds, and score rule `n` is the first that errs or lacks its metric. */
  ghost predicate StopsAtScore(r: Ranker, c: Candidate, ev: Evaluator, n: int) {
    && FirstHold(r.rules, |r.rules|, ev) && 0 <= n < |r.scores|
    && (ScoreErrs(r.scores[n], ev) || Lacks(r.scores[n], r.strict, ev, c.metric))
    && FirstScored(r.scores, n, r.strict, ev, c.metric)
  }

  /** Some condition errs before the candidate is turned away. */
  ghost predicate Errs(r: Ranker, c: Candidate, ev: Evaluator) {
    || (exists n :: StopsAtRule(r, ev, n) && !RuleFails(r.rules[n], ev))
    || (exists n :: StopsAtScore(r, c, ev, n) && ScoreErrs(r.scores[n], ev))
  }

  /** The scores of the rules, enabled or not, and what the score rules add. */
  function FullScore(r: Ranker, c: Candidate, ev: Evaluator): real {
    Sum(RuleScores(r.rules)) + Sum(Contributions(r.scores, ev, c.metric))
  }

  /** What an ineligible candidate had gathered when it was turned away. */
  ghost predicate Gathered(r: Ranker, c: Candidate, ev: Evaluator, score: real) {
    || (exists n :: StopsAtRule(r, ev, n) && score == Sum(RuleScores(r.rules[..n])))
    || (exists n :: StopsAtScore(r, c, ev, n)
                    && score == Sum(RuleScores(r.rules)) + Sum(Contributions(r.scores[..n], ev, c.metric)))
  }

  /** The rules run up to the first that does not hold. */
  lemma {:induction false} RunRulesExactly(rules: seq<Rule>, ev: Evaluator, score: real) returns (n: nat)
    ensures n <= |rules| && FirstHold(rules, n, ev) && (n < |rules| ==> !RuleHolds(rules[n], ev))
    ensures RunRules(rules, ev, score) ==
            (if n == |rules| then Holds else if RuleFails(rules[n], ev) then Fails else Error,
             score + Sum(RuleScores(rules[..n])))
  {
    hide RuleOutcome, RuleHolds, RuleFails;
    n := 0;
    if rules != [] {
      RuleOutcomeExactly(rules[0], ev);
      if RuleOutcome(rules[0], ev) == Holds {
        var m := RunRulesExactly(rules[1..], ev, score + rules[0].score);
        n := m + 1;
        assert rules[..n] == [rules[0]] + rules[1..][..m];
        assert RuleScores(rules[..n]) == [rules[0].score] + RuleScores(rules[1..][..m]);
        SumStep(rules[0].score, RuleScores(rules[1..][..m]));
      }
    }
  }

  lemma {:induction false} RunScoresExactly(scores: seq<ScoreRule>, strict: bool, ev: Evaluator,
                                            metric: string -> Option<real>, score: real) returns (n: nat)
    ensures n <= |scores| && FirstScored(scores, n, strict, ev, metric)
    ensures n < |scores| ==> ScoreErrs(scores[n], ev) || Lacks(scores[n], strict, ev, metric)
    ensures RunScores(scores, strict, ev, metric, score) ==
            (if n == |scores| then Holds else if ScoreErrs(scores[n], ev) then Error else Fails,
             score + Sum(Contributions(scores[..n], ev, metric)))
    decreases |scores|
  {
    hide NormalizeScore;
    n := 0;
    if scores != [] {
      var step := ScoreStep(scores[0], strict, ev, metric, score);
      if step.0 == Holds {
        var m := RunScoresExactly(scores[1..], strict, ev, metric, step.1);
        n := m + 1;
        assert scores[..n] == [scores[0]] + scores[1..][..m];
        var rest := Contributions(scores[1..][..m], ev, metric);
        assert Contributions(scores[..n], ev, metric) == [Contribution(scores[0], ev, metric)] + rest;
        SumStep(Contribution(scores[0], ev, metric), rest);
      }
    }
  }

  /** A candidate is assessed as eligible, in error or turned away exactly as its rules and score rules say, with the
      sum of what they give. */
  lemma AssessmentExactly(r: Ranker, c: Candidate, ev: Evaluator)
    ensures Assessment(r, c, ev).0 == Holds <==> IsEligible(r, c, ev)
    ensures Assessment(r, c, ev).0 == Error <==> Errs(r, c, ev)
    ensures Assessment(r, c, ev).0 == Holds ==> Assessment(r, c, ev).1 == FullScore(r, c, ev)
    ensures Assessment(r, c, ev).0 == Fails ==> Gathered(r, c, ev, Assessment(r, c, ev).1)
  {
    hide RunRules, RunScores, RuleHolds, RuleFails, ScoreErrs, Lacks, Contributions, RuleScores;
    var n := RunRulesExactly(r.rules, ev, 0.0);
    assert n == |r.rules| ==> r.rules[..n] == r.rules;
    assert n < |r.rules| ==> StopsAtRule(r, ev, n);
    if n == |r.rules| {
      var m := RunScoresExactly(r.scores, r.strict, ev, c.metric, Sum(RuleScores(r.rules)));
      assert m == |r.scores| ==> r.scores[..m] == r.scores;
      assert m < |r.scores| ==> StopsAtScore(r, c, ev, m);
    }
  }

  /** A key is the metric, or the default when there is none. */
  predicate KeyIs(key: real, metric: Option<real>, default: real) {
    (metric.Some? ==> key == metric.value) && (metric.None? ==> key == default)
  }

  /** The entry of a candidate in a ranking: eligible or not, with what it scored, its four comparison keys being the
      metrics at their own paths. */
  ghost predicate Describes(r: Ranker, c: Candidate, ev: Evaluator, cr: CandidateResult) {
    && cr.id == c.id && cr.name == c.name && (cr.eligible <==> IsEligible(r, c, ev))
    && (cr.eligible ==> cr.score == FullScore(r, c, ev)) && (!cr.eligible ==> Gathered(r, c, ev, cr.score))
    && KeyIs(cr.priority, c.metric(r.priorityPath), 0.0) && KeyIs(cr.specificity, c.metric(r.specificityPath), 0.0)
    && KeyIs(cr.fallback, c.metric(r.fallbackPath), r.maxFloat) && KeyIs(cr.cost, c.metric(r.costPath), 0.0)
  }

  lemma AssessedExactly(r: Ranker, c: Candidate, ev: Evaluator)
    ensures Assessed(r, c, ev).None? <==> Errs(r, c, ev)
    ensures Assessed(r, c, ev).Some? ==> Describes(r, c, ev, Assessed(r, c, ev).value)
  {
    hide Assessment;
    AssessmentExactly(r, c, ev);
  }

  // ---------- the code ----------

  /** `evalEligibilityNative` and `evalEligibility`, which differ only in the evaluator. */
  method EvalEligibility(rule: Rule, ev: Evaluator) returns (out: Outcome)
    ensures out == RuleOutcome(rule, ev)
    decreases rule, 1
  {
    if rule.disabled {
      return Holds;
    }
    var matched := true;
    if rule.condition.Some? {
      var ok := ev(rule.condition.value);
      if ok == Error {
        return Error;
      }
      matched := matched && ok == Holds;
    }
    if rule.group.Some? {
      var ok := EvalEligibilityGroup(rule.group.value, ev);
      if ok == Error {
        return Error;
      }
      matched := matched && ok == Holds;
    }
    out := if matched then Holds else Fails;
  }

  method EvalEligibilityGroup(group: Group, ev: Evaluator) returns (out: Outcome)
    ensures out == GroupOutcome(group.mode, group.rules, ev)
    decreases group, 0
  {
    var rules := group.rules;
    for i := 0 to |rules|
      invariant GroupOutcome(group.mode, rules, ev) == GroupOutcome(group.mode, rules[i..], ev)
    {
      var ok := EvalEligibility(rules[i], ev);
      assert rules[i..][1..] == rules[i + 1..];
      if ok == Error {
        return Error;
      }
      match group.mode {
        case GroupAll => if ok == Fails { return Fails; }
        case GroupAny => if ok == Holds { return Holds; }
        case GroupNone => if ok == Holds { return Fails; }
      }
    }
    out := if group.mode == GroupAny then Fails else Holds;
  }

  /** The body shared by the score loops of every `rankCandidate` variant. */
  method ApplyScoreRule(r: Ranker, s: ScoreRule, c: Candidate, cmp: Compare, ev: Evaluator, score: real)
    returns (out: Outcome, score': real)
    requires cmp == CompareValues(r, c)
    ensures out == ScoreStep(s, r.strict, ev, c.metric, score).0
    ensures score' == ScoreStep(s, r.strict, ev, c.metric, score).1
  {
    out, score' := Holds, score;
    var applies := if s.condition.Some? then ev(s.condition.value) else Holds;
    if applies == Error {
      return Error, score;
    }
    if applies == Fails {
      return;
    }
    ScoreMetricValueIsMetric(r, s, c);
    var value := ScoreMetricValue(r, s, c, cmp);
    if value.None? {
      if r.strict {
        out := Fails;
      }
      return;
    }
    score' := score + Points(value.value, s);
  }

  /** `rankCandidateNative`: an ineligible candidate keeps no score. */
  method RankCandidateNative(r: Ranker, c: Candidate) returns (score: real, cmp: Compare, out: Outcome)
    ensures cmp == CompareValues(r, c)
    ensures out == Assessment(r, c, NativeEvaluator(r, c)).0
    ensures score == if out == Holds then Assessment(r, c, NativeEvaluator(r, c)).1 else 0.0
    ensures out == Holds <==> IsEligible(r, c, NativeEvaluator(r, c))
    ensures out == Error <==> Errs(r, c, NativeEvaluator(r, c))
    ensures out == Holds ==> score == FullScore(r, c, NativeEvaluator(r, c))
  {
    AssessmentExactly(r, c, NativeEvaluator(r, c));
    hide IsEligible, Errs, FullScore, Gathered;
    var ev := NativeEvaluator(r, c);
    cmp := CompareValues(r, c);
    score := 0.0;
    for i := 0 to |r.rules|
      invariant RunRules(r.rules, ev, 0.0) == RunRules(r.rules[i..], ev, score)
    {
      out := EvalEligibility(r.rules[i], ev);
      assert r.rules[i..][1..] == r.rules[i + 1..];
      if out != Holds {
        return 0.0, cmp, out;
      }
      score := score + r.rules[i].score;
    }
    for i := 0 to |r.scores|
      invariant Assessment(r, c, ev) == RunScores(r.scores[i..], r.strict, ev, c.metric, score)
    {
      assert r.scores[i..][1..] == r.scores[i + 1..];
      out, score := ApplyScoreRule(r, r.scores[i], c, cmp, ev, score);
      if out != Holds {
        return 0.0, cmp, out;
      }
    }
    out := Holds;
  }

  /** `rankCandidateInto` and `rankCandidateIntoNative`, restricted to the fields compared. */
  method RankCandidateInto(r: Ranker, c: Candidate, ev: Evaluator) returns (cr: Option<CandidateResult>)
    ensures cr == Assessed(r, c, ev)
    ensures cr.None? <==> Errs(r, c, ev)
    ensures cr.Some? ==> Describes(r, c, ev, cr.value)
  {
    AssessedExactly(r, c, ev);
    hide Errs, Describes;
    var cmp := CompareValues(r, c);
    var score := 0.0;
    for i := 0 to |r.rules|
      invariant RunRules(r.rules, ev, 0.0) == RunRules(r.rules[i..], ev, score)
    {
      var matched := EvalEligibility(r.rules[i], ev);
      assert r.rules[i..][1..] == r.rules[i + 1..];
      if matched == Error {
        return None;
      }
      if matched == Fails {
        return Some(ResultOf(r, c, false, score));
      }
      score := score + r.rules[i].score;
    }
    for i := 0 to |r.scores|
      invariant Assessment(r, c, ev) == RunScores(r.scores[i..], r.strict, ev, c.metric, score)
    {
      assert r.scores[i..][1..] == r.scores[i + 1..];
      var out;
      out, score := ApplyScoreRule(r, r.scores[i], c, cmp, ev, score);
      if out == Error {
        return None;
      }
      if out == Fails {
        return Some(ResultOf(r, c, false, score));
      }
    }
    cr := Some(ResultOf(r, c, true, score));
  }
}
