/** What a list of rules comes to (engine.go), told by the rules that fire rather than by the loop that applies them. */
module EngineResults {
  import opened Wrappers
  import opened Outcomes
  import opened Rules
  import opened Engine
  import opened Folds
  import StableSort

  // ---------- which rules fire ----------

  /** Enabled, within its time and with a condition that comes to `out`. */
  predicate ComesTo(env: Env, r: Rule, out: Outcome) {
    && !r.disabled
    && (r.validFrom <= 0 || r.validFrom <= env.now) && (r.validUntil <= 0 || env.now <= r.validUntil)
    && env.condition(r.condition) == out
  }

  function Firing(env: Env): Rule -> bool {
    (r: Rule) => ComesTo(env, r, Holds)
  }

  /** The words of a rule that can decide: its decision, then the types of its actions. */
  function WordsOf(r: Rule): seq<string> {
    [r.decision] + KindsOf(r.actions)
  }

  function KindsOf(actions: seq<Action>): seq<string> {
    seq(|actions|, k requires 0 <= k < |actions| => actions[k].kind)
  }

  predicate Says(r: Rule, word: string) {
    exists k :: 0 <= k < |WordsOf(r)| && EqualFold(WordsOf(r)[k], word)
  }

  /** A firing rule that ends the list. */
  predicate Ends(mode: ExecutionMode, r: Rule) {
    || r.stopOnMatch || r.nextStage != "" || mode == FirstMatch || mode == HighestPriority
    || (mode == DenyOverrides && Says(r, "deny")) || (mode == AllowOverrides && Says(r, "allow"))
  }

  lemma SaysWord(r: Rule, word: string)
    ensures Says(r, word) <==> EqualFold(r.decision, word) || HasAction(r.actions, word)
  {
    if EqualFold(r.decision, word) {
      assert EqualFold(WordsOf(r)[0], word);
    }
    if HasAction(r.actions, word) {
      var k :| 0 <= k < |r.actions| && EqualFold(r.actions[k].kind, word);
      assert EqualFold(WordsOf(r)[k + 1], word);
    }
    if Says(r, word) {
      var k :| 0 <= k < |WordsOf(r)| && EqualFold(WordsOf(r)[k], word);
      assert k > 0 ==> EqualFold(r.actions[k - 1].kind, word);
    }
  }

  lemma EndsIsStops(mode: ExecutionMode, r: Rule)
    ensures Ends(mode, r) <==> Stops(mode, r)
  {
    SaysWord(r, "allow");
    SaysWord(r, "deny");
  }

  lemma ComesToOutcome(env: Env, r: Rule)
    ensures RuleOutcome(env, r) == Holds <==> ComesTo(env, r, Holds)
    ensures RuleOutcome(env, r) == Error <==> ComesTo(env, r, Error)
  {
  }

  // ---------- what they add up to ----------

  function Deciding(): string -> bool {
    (w: string) => EqualFold(w, "allow") || EqualFold(w, "deny")
  }

  function Spoken(): Rule -> bool {
    (r: Rule) => r.decision != ""
  }

  /** The flag is what the last word that decides says, and false when none does. */
  ghost predicate DecidedBy(words: seq<string>, allowed: bool) {
    if NoneIs(words, Deciding()) then !allowed
    else exists k :: IsLast(words, Deciding(), k) && allowed == EqualFold(words[k], "allow")
  }

  /** The decision is that of the last rule that has one. */
  ghost predicate DecisionOf(fired: seq<Rule>, decision: string) {
    if NoneIs(fired, Spoken()) then decision == ""
    else exists k :: IsLast(fired, Spoken(), k) && decision == fired[k].decision
  }

  function WordLists(fired: seq<Rule>): seq<seq<string>> {
    seq(|fired|, k requires 0 <= k < |fired| => WordsOf(fired[k]))
  }

  function ActionLists(fired: seq<Rule>): seq<seq<Action>> {
    seq(|fired|, k requires 0 <= k < |fired| => fired[k].actions)
  }

  function Scores(fired: seq<Rule>): seq<real> {
    seq(|fired|, k requires 0 <= k < |fired| => fired[k].score)
  }

  function Ids(env: Env, fired: seq<Rule>): seq<int> {
    seq(|fired|, k requires 0 <= k < |fired| => env.ruleId(fired[k].id))
  }

  /** The result of the rules that fired, in order. */
  ghost predicate AddsUp(env: Env, fired: seq<Rule>, res: Result) {
    && (res.matched <==> fired != [])
    && res.ids == Ids(env, fired) && res.score == Sum(Scores(fired)) && res.actions == Concat(ActionLists(fired))
    && DecisionOf(fired, res.decision) && DecidedBy(Concat(WordLists(fired)), res.allowed)
  }

  lemma DecidedNext(words: seq<string>, allowed: bool, w: string)
    requires DecidedBy(words, allowed)
    ensures DecidedBy(words + [w], ApplyWord(allowed, w))
  {
    AllowOrDeny(w);
    if NoneIs(words, Deciding()) {
      LastStep(words, Deciding(), w, 0);
    } else {
      var k :| IsLast(words, Deciding(), k) && allowed == EqualFold(words[k], "allow");
      LastStep(words, Deciding(), w, k);
      assert (words + [w])[k] == words[k];
    }
    assert (words + [w])[|words|] == w;
  }

  lemma AllowOrDeny(w: string)
    ensures !(EqualFold(w, "allow") && EqualFold(w, "deny"))
  {
  }

  lemma {:induction false} DecidedActions(words: seq<string>, allowed: bool, actions: seq<Action>)
    requires DecidedBy(words, allowed)
    ensures DecidedBy(words + KindsOf(actions), ApplyActions(allowed, actions))
  {
    hide DecidedBy, ApplyWord;
    if actions == [] {
      assert words + KindsOf(actions) == words;
    } else {
      var n := |actions| - 1;
      DecidedActions(words, allowed, actions[..n]);
      var front := words + KindsOf(actions[..n]);
      DecidedNext(front, ApplyActions(allowed, actions[..n]), actions[n].kind);
      assert words + KindsOf(actions) == front + [actions[n].kind];
    }
  }

  lemma DecidedRule(words: seq<string>, allowed: bool, r: Rule)
    requires DecidedBy(words, allowed)
    ensures DecidedBy(words + WordsOf(r), RuleEffect(allowed, r))
  {
    hide DecidedBy;
    DecidedNext(words, allowed, r.decision);
    DecidedActions(words + [r.decision], ApplyWord(allowed, r.decision), r.actions);
    assert words + [r.decision] + KindsOf(r.actions) == words + WordsOf(r);
    assert r.decision == "" ==> ApplyWord(allowed, r.decision) == allowed;
  }

  /** One more rule. */
  lemma AddsUpNext(env: Env, fired: seq<Rule>, res: Result, r: Rule)
    requires AddsUp(env, fired, res)
    ensures AddsUp(env, fired + [r], Apply(env, res, r))
  {
    hide DecidedBy, DecisionOf, WordsOf, RuleEffect;
    var more := fired + [r];
    DecidedRule(Concat(WordLists(fired)), res.allowed, r);
    assert WordLists(more) == WordLists(fired) + [WordsOf(r)];
    ConcatAppend(WordLists(fired), WordsOf(r));
    assert ActionLists(more) == ActionLists(fired) + [r.actions];
    ConcatAppend(ActionLists(fired), r.actions);
    assert Scores(more) == Scores(fired) + [r.score];
    SumAppend(Scores(fired), [r.score]);
    SumOne(r.score);
    assert Ids(env, more) == Ids(env, fired) + [env.ruleId(r.id)];
    DecisionNext(fired, res.decision, r);
  }

  lemma DecisionNext(fired: seq<Rule>, decision: string, r: Rule)
    requires DecisionOf(fired, decision)
    ensures DecisionOf(fired + [r], if r.decision != "" then r.decision else decision)
  {
    if NoneIs(fired, Spoken()) {
      LastStep(fired, Spoken(), r, 0);
    } else {
      var k :| IsLast(fired, Spoken(), k) && decision == fired[k].decision;
      LastStep(fired, Spoken(), r, k);
      assert (fired + [r])[k] == fired[k];
    }
    assert (fired + [r])[|fired|] == r;
  }

  // ---------- the whole run ----------

  /** The list is run up to `n`: no condition before erred and no firing rule before the last ended it. */
  ghost predicate RunsTo(env: Env, rules: seq<Rule>, mode: ExecutionMode, n: nat, run: Run) {
    && n <= |rules|
    && (forall k :: 0 <= k < n ==> !ComesTo(env, rules[k], Error))
    && (forall k :: 0 <= k < n - 1 ==> !(ComesTo(env, rules[k], Holds) && Ends(mode, rules[k])))
    && var ended := n > 0 && ComesTo(env, rules[n - 1], Holds) && Ends(mode, rules[n - 1]);
    && (if ended then !run.err else run.err <==> n < |rules|)
    && (run.err ==> ComesTo(env, rules[n], Error))
    && run.next == if ended then rules[n - 1].nextStage else ""
  }

  /** A first rule that neither errs nor ends the list. */
  lemma RunsOn(env: Env, rules: seq<Rule>, mode: ExecutionMode, m: nat, run: Run)
    requires rules != [] && RunsTo(env, rules[1..], mode, m, run)
    requires !ComesTo(env, rules[0], Error) && !(ComesTo(env, rules[0], Holds) && Ends(mode, rules[0]))
    ensures RunsTo(env, rules, mode, m + 1, run)
  {
    hide ComesTo, Ends;
    var rest := rules[1..];
    assert forall k :: 0 <= k < |rest| ==> rest[k] == rules[k + 1];
    assert forall k :: 0 < k < |rules| ==> rules[k] == rest[k - 1];
  }

  /** The run of a list: where it ends, and the result of the rules that fired until then. */
  lemma {:induction false} RunExactly(env: Env, rules: seq<Rule>, mode: ExecutionMode, before: seq<Rule>, res: Result)
    returns (n: nat)
    requires AddsUp(env, before, res)
    ensures var run := EvalRules(env, rules, mode, res);
            && RunsTo(env, rules, mode, n, run)
            && AddsUp(env, before + StableSort.Keep(rules[..n], Firing(env)), run.result)
    decreases |rules|
  {
    hide AddsUp, Apply, Ends, Stops, RuleOutcome, ComesTo;
    if rules == [] {
      n := 0;
      assert before + StableSort.Keep(rules[..0], Firing(env)) == before;
    } else {
      ComesToOutcome(env, rules[0]);
      EndsIsStops(mode, rules[0]);
      if RuleOutcome(env, rules[0]) == Error {
        n := 0;
        assert before + StableSort.Keep(rules[..0], Firing(env)) == before;
      } else if RuleOutcome(env, rules[0]) == Fails {
        var m := RunExactly(env, rules[1..], mode, before, res);
        n := m + 1;
        hide RunsTo;
        RunsOn(env, rules, mode, m, EvalRules(env, rules, mode, res));
        KeepFirst(env, rules, m);
        assert StableSort.Keep(rules[..n], Firing(env)) == StableSort.Keep(rules[1..][..m], Firing(env));
      } else {
        n := RunFiring(env, rules, mode, before, res);
      }
    }
  }

  /** The same where the first rule fires. */
  lemma {:induction false} RunFiring(env: Env, rules: seq<Rule>, mode: ExecutionMode, before: seq<Rule>, res: Result)
    returns (n: nat)
    requires AddsUp(env, before, res) && rules != [] && ComesTo(env, rules[0], Holds)
    ensures var run := EvalRules(env, rules, mode, res);
            && RunsTo(env, rules, mode, n, run)
            && AddsUp(env, before + StableSort.Keep(rules[..n], Firing(env)), run.result)
    decreases |rules|, 0
  {
    hide AddsUp, Apply, Ends, Stops, RuleOutcome;
    var r, rest := rules[0], rules[1..];
    ComesToOutcome(env, r);
    EndsIsStops(mode, r);
    AddsUpNext(env, before, res, r);
    if Stops(mode, r) {
      n := 1;
      KeepFirst(env, rules, 0);
      assert StableSort.Keep(rules[..1], Firing(env)) == [r] + StableSort.Keep([], Firing(env)) == [r];
    } else {
      var m := RunExactly(env, rest, mode, before + [r], Apply(env, res, r));
      n := m + 1;
      hide RunsTo, ComesTo;
      RunsOn(env, rules, mode, m, EvalRules(env, rules, mode, res));
      KeepFirst(env, rules, m);
      assert before + [r] + StableSort.Keep(rest[..m], Firing(env))
          == before + ([r] + StableSort.Keep(rest[..m], Firing(env)));
    }
  }

  lemma KeepFirst(env: Env, rules: seq<Rule>, m: nat)
    requires m < |rules|
    ensures StableSort.Keep(rules[..m + 1], Firing(env)) ==
            (if ComesTo(env, rules[0], Holds) then [rules[0]] else []) + StableSort.Keep(rules[1..][..m], Firing(env))
  {
    assert rules[..m + 1][1..] == rules[1..][..m];
  }

  /** A list evaluated from scratch. */
  lemma EvalExactly(env: Env, rules: seq<Rule>, mode: ExecutionMode) returns (n: nat)
    ensures var run := EvalRules(env, rules, mode, NoResult);
            RunsTo(env, rules, mode, n, run) && AddsUp(env, StableSort.Keep(rules[..n], Firing(env)), run.result)
  {
    assert AddsUp(env, [], NoResult);
    n := RunExactly(env, rules, mode, [], NoResult);
    assert [] + StableSort.Keep(rules[..n], Firing(env)) == StableSort.Keep(rules[..n], Firing(env));
  }

  // ---------- the order of the rules ----------

  /** Greater priority first, then greater salience; ties stay as they were. */
  lemma SortedExactly(rules: seq<Rule>, i: int, j: int)
    requires 0 <= i < j < |SortRules(rules)|
    ensures var a, b := SortRules(rules)[i], SortRules(rules)[j];
            a.priority >= b.priority && (a.priority == b.priority ==> a.salience >= b.salience)
  {
    assert StableSort.Order(RuleBefore());
    StableSort.SortSorted(rules, RuleBefore());
  }

  lemma SortedKeepsTies(rules: seq<Rule>, a: Rule, b: Rule)
    requires StableSort.Precedes(rules, a, b) && a.priority == b.priority && a.salience == b.salience
    ensures StableSort.Precedes(SortRules(rules), a, b) && multiset(SortRules(rules)) == multiset(rules)
  {
    StableSort.SortKeeps(rules, RuleBefore(), a, b);
    StableSort.SortPermutes(rules, RuleBefore());
  }
}
