/** The rule engine and workflow runner (engine.go). */
module Engine {
  import opened Wrappers
  import opened Outcomes
  import opened Rules
  import StableSort
  import Text

  datatype Result = Result(
    matched: bool, ids: seq<int>, score: real, allowed: bool, decision: string, actions: seq<Action>)

  const NoResult := Result(false, [], 0.0, false, "", [])

  /** What evaluation depends on: rule ids (`parseRuleID`), conditions and the clock. */
  datatype Env = Env(ruleId: string -> int, condition: nat -> Outcome, now: int)

  // ---------- one rule ----------

  predicate HasAction(actions: seq<Action>, word: string) {
    exists k :: 0 <= k < |actions| && EqualFold(actions[k].kind, word)
  }

  predicate RuleAllows(rule: Rule) {
    EqualFold(rule.decision, "allow") || HasAction(rule.actions, "allow")
  }

  predicate RuleDenies(rule: Rule) {
    EqualFold(rule.decision, "deny") || HasAction(rule.actions, "deny")
  }

  /** `applyDecision` and `applyAction`: the word "allow" or "deny" sets the flag. */
  function ApplyWord(allowed: bool, word: string): bool {
    if EqualFold(word, "allow") then true else if EqualFold(word, "deny") then false else allowed
  }

  function ApplyActions(allowed: bool, actions: seq<Action>): bool {
    if actions == [] then allowed
    else ApplyWord(ApplyActions(allowed, actions[..|actions| - 1]), actions[|actions| - 1].kind)
  }

  /** The flag after the rule's decision and then its actions, in order. */
  function RuleEffect(allowed: bool, rule: Rule): bool {
    ApplyActions(if rule.decision != "" then ApplyWord(allowed, rule.decision) else allowed, rule.actions)
  }

  /** `applyMatchedRule`, without action handlers. */
  function Apply(env: Env, res: Result, rule: Rule): Result {
    Result(true, res.ids + [env.ruleId(rule.id)], res.score + rule.score, RuleEffect(res.allowed, rule),
           if rule.decision != "" then rule.decision else res.decision, res.actions + rule.actions)
  }

  /** `evalRule`: a disabled or inactive rule fails without looking at its condition. */
  function RuleOutcome(env: Env, rule: Rule): Outcome {
    if rule.disabled || !ActiveAt(rule.validFrom, rule.validUntil, env.now) then Fails
    else env.condition(rule.condition)
  }

  predicate ShouldStop(mode: ExecutionMode, rule: Rule) {
    match mode
    case FirstMatch => true
    case HighestPriority => true
    case DenyOverrides => RuleDenies(rule)
    case AllowOverrides => RuleAllows(rule)
    case _ => false
  }

  predicate Stops(mode: ExecutionMode, rule: Rule) {
    rule.stopOnMatch || rule.nextStage != "" || ShouldStop(mode, rule)
  }

  // ---------- a list of rules ----------

  datatype Run = Run(result: Result, next: string, err: bool)

  /** `evalRulesWithNext` from a partial result. */
  function EvalRules(env: Env, rules: seq<Rule>, mode: ExecutionMode, res: Result): Run {
    if rules == [] then Run(res, "", false)
    else
      match RuleOutcome(env, rules[0])
      case Error => Run(res, "", true)
      case Fails => EvalRules(env, rules[1..], mode, res)
      case Holds =>
        var res' := Apply(env, res, rules[0]);
        if Stops(mode, rules[0]) then Run(res', rules[0].nextStage, false)
        else EvalRules(env, rules[1..], mode, res')
  }

  method ApplyMatchedRule(env: Env, res: Result, rule: Rule) returns (out: Result)
    ensures out == Apply(env, res, rule)
  {
    out := res.(matched := true, ids := res.ids + [env.ruleId(rule.id)], score := res.score + rule.score);
    if rule.decision != "" {
      out := out.(decision := rule.decision);
      if EqualFold(rule.decision, "allow") {
        out := out.(allowed := true);
      } else if EqualFold(rule.decision, "deny") {
        out := out.(allowed := false);
      }
    }
    ghost var start := out.allowed;
    out := out.(actions := res.actions + rule.actions);
    ghost var base := out;
    for i := 0 to |rule.actions|
      invariant out == base.(allowed := ApplyActions(start, rule.actions[..i]))
    {
      assert rule.actions[..i + 1][..i] == rule.actions[..i];
      if EqualFold(rule.actions[i].kind, "allow") {
        out := out.(allowed := true);
      } else if EqualFold(rule.actions[i].kind, "deny") {
        out := out.(allowed := false);
      }
    }
    assert rule.actions[..|rule.actions|] == rule.actions;
  }

  method EvalRulesWithNext(env: Env, rules: seq<Rule>, mode: ExecutionMode)
    returns (res: Result, next: string, err: bool)
    ensures Run(res, next, err) == EvalRules(env, rules, mode, NoResult)
  {
    res, next, err := NoResult, "", false;
    for i := 0 to |rules|
      invariant EvalRules(env, rules, mode, NoResult) == EvalRules(env, rules[i..], mode, res)
    {
      var r := rules[i];
      assert rules[i..][0] == r && rules[i..][1..] == rules[i + 1..];
      var out := RuleOutcome(env, r);
      if out == Error {
        return res, "", true;
      }
      if out == Fails {
        continue;
      }
      res := ApplyMatchedRule(env, res, r);
      if r.stopOnMatch {
        return res, r.nextStage, false;
      }
      if r.nextStage != "" {
        return res, r.nextStage, false;
      }
      if ShouldStop(mode, r) {
        return res, "", false;
      }
    }
  }

  // ---------- sorting ----------

  /** The order of `sortRules`. */
  function RuleBefore(): (Rule, Rule) -> bool {
    (a: Rule, b: Rule) => if a.priority != b.priority then a.priority > b.priority else a.salience > b.salience
  }

  function SortRules(rules: seq<Rule>): seq<Rule> {
    StableSort.Sort(rules, RuleBefore())
  }

  // ---------- deny and allow overrides ----------

  lemma {:induction false} ActionsDecide(a: bool, b: bool, actions: seq<Action>)
    ensures HasAction(actions, "allow") || HasAction(actions, "deny") ==>
              ApplyActions(a, actions) == ApplyActions(b, actions)
    ensures !HasAction(actions, "allow") && !HasAction(actions, "deny") ==> ApplyActions(a, actions) == a
    ensures HasAction(actions, "allow") && !HasAction(actions, "deny") ==> ApplyActions(a, actions)
    ensures HasAction(actions, "deny") && !HasAction(actions, "allow") ==> !ApplyActions(a, actions)
  {
    if actions != [] {
      var n := |actions| - 1;
      ActionsDecide(a, b, actions[..n]);
      assert HasAction(actions, "allow") <==> HasAction(actions[..n], "allow") || EqualFold(actions[n].kind, "allow");
      assert HasAction(actions, "deny") <==> HasAction(actions[..n], "deny") || EqualFold(actions[n].kind, "deny");
    }
  }

  /** A rule that allows or denies sets the flag whatever it was; one that only allows sets it, one that only denies
      clears it. */
  lemma RuleDecides(a: bool, b: bool, rule: Rule)
    ensures RuleAllows(rule) || RuleDenies(rule) ==> RuleEffect(a, rule) == RuleEffect(b, rule)
    ensures !RuleAllows(rule) && !RuleDenies(rule) ==> RuleEffect(a, rule) == a
    ensures RuleAllows(rule) && !RuleDenies(rule) ==> RuleEffect(a, rule)
    ensures RuleDenies(rule) && !RuleAllows(rule) ==> !RuleEffect(a, rule)
  {
    ActionsDecide(if rule.decision != "" then ApplyWord(a, rule.decision) else a,
                  if rule.decision != "" then ApplyWord(b, rule.decision) else b, rule.actions);
  }

  predicate Fires(env: Env, rule: Rule) {
    RuleOutcome(env, rule) == Holds
  }

  /** The first firing rule that allows (denies), if any. */
  function FirstAllowing(env: Env, rules: seq<Rule>): Option<Rule> {
    if rules == [] then None
    else if Fires(env, rules[0]) && RuleAllows(rules[0]) then Some(rules[0]) else FirstAllowing(env, rules[1..])
  }

  function FirstDenying(env: Env, rules: seq<Rule>): Option<Rule> {
    if rules == [] then None
    else if Fires(env, rules[0]) && RuleDenies(rules[0]) then Some(rules[0]) else FirstDenying(env, rules[1..])
  }

  ghost predicate SomeAllows(env: Env, rules: seq<Rule>) {
    exists r :: r in rules && Fires(env, r) && RuleAllows(r)
  }

  ghost predicate SomeDenies(env: Env, rules: seq<Rule>) {
    exists r :: r in rules && Fires(env, r) && RuleDenies(r)
  }

  /** No condition fails to evaluate, no rule stops the list by itself. */
  ghost predicate Plain(env: Env, rules: seq<Rule>) {
    forall r :: r in rules ==> RuleOutcome(env, r) != Error && !r.stopOnMatch && r.nextStage == ""
  }

  lemma {:induction false} FirstIsSome(env: Env, rules: seq<Rule>)
    ensures FirstAllowing(env, rules).Some? <==> SomeAllows(env, rules)
    ensures FirstDenying(env, rules).Some? <==> SomeDenies(env, rules)
    ensures FirstAllowing(env, rules).Some? ==>
              FirstAllowing(env, rules).value in rules && RuleAllows(FirstAllowing(env, rules).value)
    ensures FirstDenying(env, rules).Some? ==>
              FirstDenying(env, rules).value in rules && RuleDenies(FirstDenying(env, rules).value)
  {
    if rules != [] {
      FirstIsSome(env, rules[1..]);
      assert rules == [rules[0]] + rules[1..];
    }
  }

  lemma {:induction false} DenyRun(env: Env, rules: seq<Rule>, res: Result)
    requires Plain(env, rules)
    ensures EvalRules(env, rules, DenyOverrides, res).result.allowed ==
            match FirstDenying(env, rules)
            case Some(r) => RuleEffect(false, r)
            case None => res.allowed || SomeAllows(env, rules)
    decreases |rules|
  {
    if rules != [] {
      var r, rest := rules[0], rules[1..];
      assert rules == [r] + rest;
      assert SomeAllows(env, rules) <==> (Fires(env, r) && RuleAllows(r)) || SomeAllows(env, rest);
      RuleDecides(res.allowed, false, r);
      DenyRun(env, rest, if Fires(env, r) then Apply(env, res, r) else res);
    }
  }

  lemma {:induction false} AllowRun(env: Env, rules: seq<Rule>, res: Result)
    requires Plain(env, rules) && !res.allowed
    ensures EvalRules(env, rules, AllowOverrides, res).result.allowed ==
            match FirstAllowing(env, rules)
            case Some(r) => RuleEffect(false, r)
            case None => false
    decreases |rules|
  {
    if rules != [] {
      var r, rest := rules[0], rules[1..];
      assert rules == [r] + rest;
      RuleDecides(res.allowed, false, r);
      AllowRun(env, rest, if Fires(env, r) && !RuleAllows(r) then Apply(env, res, r) else res);
    }
  }

  /** Under deny-overrides the result is "something allows and nothing denies" unless, and only unless, the first
      denying rule ends by allowing. */
  lemma DenyOverridesExact(env: Env, rules: seq<Rule>)
    requires Plain(env, rules)
    ensures EvalRules(env, rules, DenyOverrides, NoResult).result.allowed
            == (SomeAllows(env, rules) && !SomeDenies(env, rules))
            <==> (FirstDenying(env, rules).Some? ==> !RuleEffect(false, FirstDenying(env, rules).value))
  {
    DenyRun(env, rules, NoResult);
    FirstIsSome(env, rules);
  }

  /** Under allow-overrides the result is "something allows" unless, and only unless, the first allowing rule ends by
      denying. */
  lemma AllowOverridesExact(env: Env, rules: seq<Rule>)
    requires Plain(env, rules)
    ensures EvalRules(env, rules, AllowOverrides, NoResult).result.allowed == SomeAllows(env, rules)
            <==> (FirstAllowing(env, rules).Some? ==> RuleEffect(false, FirstAllowing(env, rules).value))
  {
    AllowRun(env, rules, NoResult);
    FirstIsSome(env, rules);
  }

  ghost predicate NoMixedRule(rules: seq<Rule>) {
    forall r :: r in rules ==> !(RuleAllows(r) && RuleDenies(r))
  }

  /** When no rule both allows and denies, neither overriding mode looks at the order of the rules. */
  lemma OverridesIgnoreOrder(env: Env, rules: seq<Rule>, shuffled: seq<Rule>)
    requires multiset(rules) == multiset(shuffled)
    requires Plain(env, rules) && NoMixedRule(rules)
    ensures EvalRules(env, rules, DenyOverrides, NoResult).result.allowed ==
            EvalRules(env, shuffled, DenyOverrides, NoResult).result.allowed ==
            (SomeAllows(env, rules) && !SomeDenies(env, rules))
    ensures EvalRules(env, rules, AllowOverrides, NoResult).result.allowed ==
            EvalRules(env, shuffled, AllowOverrides, NoResult).result.allowed == SomeAllows(env, rules)
  {
    forall r ensures r in rules <==> r in shuffled {
      assert r in rules <==> r in multiset(rules);
      assert r in shuffled <==> r in multiset(shuffled);
    }
    OverridesAllowed(env, rules);
    OverridesAllowed(env, shuffled);
  }

  lemma OverridesAllowed(env: Env, rules: seq<Rule>)
    requires Plain(env, rules) && NoMixedRule(rules)
    ensures EvalRules(env, rules, DenyOverrides, NoResult).result.allowed
            == (SomeAllows(env, rules) && !SomeDenies(env, rules))
    ensures EvalRules(env, rules, AllowOverrides, NoResult).result.allowed == SomeAllows(env, rules)
  {
    FirstIsSome(env, rules);
    if FirstDenying(env, rules).Some? {
      RuleDecides(false, false, FirstDenying(env, rules).value);
    }
    if FirstAllowing(env, rules).Some? {
      RuleDecides(false, false, FirstAllowing(env, rules).value);
    }
    DenyOverridesExact(env, rules);
    AllowOverridesExact(env, rules);
  }

  /** A rule with the given decision and one action. */
  function Mixed(decision: string, action: string): Rule {
    Rule("", 0, 0, 0, [Action(action, 0, [])], 0.0, decision, false, false, "", 0, 0, "")
  }

  lemma MixedRuns(decision: string, action: string, mode: ExecutionMode)
    requires {decision, action} == {"allow", "deny"}
    ensures var r, env := Mixed(decision, action), Env(_ => 1, _ => Holds, 0);
            && Plain(env, [r]) && Fires(env, r) && RuleAllows(r) && RuleDenies(r)
            && EvalRules(env, [r], mode, NoResult).result.allowed == (action == "allow")
  {
    assert Text.Lower("allow") == "allow" && Text.Lower("deny") == "deny";
    var r, env := Mixed(decision, action), Env(_ => 1, _ => Holds, 0);
    assert {decision, action} == {"allow", "deny"} ==> decision in {"allow", "deny"} && action in {"allow", "deny"};
    assert decision in {decision, action} && action in {decision, action};
    assert "allow" in {decision, action} && "deny" in {decision, action};
    assert r.actions[0].kind == action && r.actions[..0] == [];
    assert RuleEffect(false, r) == (action == "allow");
    assert [r][1..] == [];
  }

  /** A deny decision with an allow action gets past deny-overrides, and an allow decision with a deny action past
      allow-overrides. */
  lemma MixedRulesDeviate()
    ensures var env, rules := Env(_ => 1, _ => Holds, 0), [Mixed("deny", "allow")];
            && Plain(env, rules) && SomeDenies(env, rules)
            && EvalRules(env, rules, DenyOverrides, NoResult).result.allowed
    ensures var env, rules := Env(_ => 1, _ => Holds, 0), [Mixed("allow", "deny")];
            && Plain(env, rules) && SomeAllows(env, rules)
            && !EvalRules(env, rules, AllowOverrides, NoResult).result.allowed
  {
    hide Plain, Fires, RuleAllows, RuleDenies, EvalRules, Mixed;
    MixedRuns("deny", "allow", DenyOverrides);
    MixedRuns("allow", "deny", AllowOverrides);
    assert Mixed("deny", "allow") in [Mixed("deny", "allow")];
    assert Mixed("allow", "deny") in [Mixed("allow", "deny")];
  }
}
