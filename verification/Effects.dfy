/** Effect resolution across policies, rule sets and workflows (decision_platform.go). */
module Effects {
  import opened Wrappers
  import opened Outcomes
  import opened Rules
  import Text
  import BclCondition

  const ALLOW := "allow"
  const DENY := "deny"
  const REVIEW := "require_review"
  const ESCALATE := "escalate"
  const ABSTAIN := "abstain"

  /** Not empty, and in lower case. */
  predicate Normal(e: string) {
    e != "" && Text.Lower(e) == e
  }

  predicate AllNormal(effects: seq<string>) {
    forall k :: 0 <= k < |effects| ==> Normal(effects[k])
  }

  /** `normalizeEffect`: an empty effect abstains, an unknown one is kept. */
  function Normalize(raw: string): (e: string)
    ensures Normal(e)
  {
    var e := Text.Lower(BclCondition.Trim(raw));
    if e == "" then ABSTAIN else e
  }

  /** The word inside the white space, in lower case; nothing inside it abstains. */
  lemma NormalizeExactly(before: string, word: string, after: string)
    requires BclCondition.Blank(before) && BclCondition.Blank(after) && (word == "" || BclCondition.Trimmed(word))
    ensures Normalize(before + word + after) == if word == "" then ABSTAIN else Text.Lower(word)
  {
    BclCondition.TrimExactly(before, word, after);
  }

  /** `effectRank`. */
  function Rank(effect: string): nat {
    if effect == DENY then 500 else if effect == REVIEW then 400 else if effect == ESCALATE then 300
    else if effect == ALLOW then 200 else if effect == ABSTAIN || effect == "" then 0 else 100
  }

  /** `resolveEffect`: the later one wins a tie. */
  function Resolve(current: string, next: string): string {
    if Rank(next) >= Rank(current) then next else current
  }

  // ---------- the winner of a list ----------

  function Winner(effects: seq<string>): string {
    if effects == [] then ABSTAIN else Resolve(Winner(effects[..|effects| - 1]), effects[|effects| - 1])
  }

  lemma AbstainRank()
    ensures Rank(ABSTAIN) == 0
  {
  }

  /** Where a list's winner stands, or -1 when nobody spoke: nothing before it ranks above it and nothing after it ranks
      as high. */
  lemma {:induction false} WinnerGreatest(effects: seq<string>) returns (at: int)
    ensures -1 <= at < |effects| && (at < 0 <==> effects == [])
    ensures Winner(effects) == if at < 0 then ABSTAIN else effects[at]
    ensures forall k :: 0 <= k <= at ==> Rank(effects[k]) <= Rank(Winner(effects))
    ensures forall k :: at < k < |effects| ==> Rank(effects[k]) < Rank(Winner(effects))
  {
    hide Rank;
    if effects == [] {
      at := -1;
    } else {
      var n := |effects| - 1;
      var front := effects[..n];
      at := WinnerGreatest(front);
      assert forall k :: 0 <= k < n ==> effects[k] == front[k];
      AbstainRank();
      if Rank(effects[n]) >= Rank(Winner(front)) {
        at := n;
      }
    }
  }

  lemma {:induction false} WinnerAppend(a: seq<string>, b: seq<string>)
    ensures Rank(Winner(a)) <= Rank(Winner(a + b))
    decreases |b|
  {
    if b == [] {
      assert a + b == a;
    } else {
      WinnerAppend(a, b[..|b| - 1]);
      assert (a + b)[..|a + b| - 1] == a + b[..|b| - 1];
    }
  }

  // ---------- the winner by membership ----------

  predicate Known(e: string) {
    e in [DENY, REVIEW, ESCALATE, ALLOW]
  }

  /** A denial decides; failing that a review, an escalation, an allowance; an unknown effect only when none of these
      takes part; and an abstention when nothing else does. */
  ghost predicate DecidedBy(parts: seq<string>, final: string) {
    && (final == DENY <==> DENY in parts)
    && (final == REVIEW <==> REVIEW in parts && DENY !in parts)
    && (final == ESCALATE <==> ESCALATE in parts && REVIEW !in parts && DENY !in parts)
    && (final == ALLOW <==> ALLOW in parts && ESCALATE !in parts && REVIEW !in parts && DENY !in parts)
    && (final == ABSTAIN <==> forall k :: 0 <= k < |parts| ==> parts[k] == ABSTAIN)
    && (!Known(final) && final != ABSTAIN ==>
          final in parts && forall k :: 0 <= k < |parts| ==> !Known(parts[k]))
  }

  /** Whatever ranks highest among the parts decides them. */
  lemma GreatestDecides(parts: seq<string>, final: string)
    requires AllNormal(parts) && (final in parts || (final == ABSTAIN && parts == []))
    requires forall k :: 0 <= k < |parts| ==> Rank(parts[k]) <= Rank(final)
    ensures DecidedBy(parts, final)
  {
    assert final in parts ==> exists k :: 0 <= k < |parts| && parts[k] == final;
    assert forall e :: e in parts ==> Rank(e) <= Rank(final) && Normal(e);
    assert forall k :: 0 <= k < |parts| ==> parts[k] in parts;
  }

  lemma WinnerByMembership(parts: seq<string>)
    requires AllNormal(parts)
    ensures DecidedBy(parts, Winner(parts))
  {
    hide Winner, Rank, DecidedBy;
    var at := WinnerGreatest(parts);
    GreatestDecides(parts, Winner(parts));
  }

  // ---------- what takes part ----------

  /** `outcome` is the rule's condition on the request's facts; a rule without one holds. */
  datatype PolicyRule = PolicyRule(effect: string, stopOnMatch: bool, outcome: Outcome)

  datatype Policy = Policy(name: string, decision: string, defaultEffect: string, rules: seq<PolicyRule>)

  /** A rule set and the decision the engine reaches on it, unless it fails. */
  datatype RuleSetRun = RuleSetRun(name: string, namespace: string, decision: Option<string>)

  /** `decisionMatches`. */
  predicate Matches(requested: string, a: string, b: string) {
    requested == "" || requested == a || requested == b
  }

  datatype RuleEffects = RuleEffects(effects: seq<string>, matchedAny: bool)

  /** The effects of the matching rules, up to one that stops. */
  function MatchedEffects(rules: seq<PolicyRule>): (r: Option<RuleEffects>)
    ensures r.Some? ==> AllNormal(r.value.effects)
  {
    if rules == [] then Some(RuleEffects([], false))
    else if rules[0].outcome == Error then None
    else if rules[0].outcome == Fails then MatchedEffects(rules[1..])
    else
      Prepended([Normalize(rules[0].effect)], true,
                if rules[0].stopOnMatch then Some(RuleEffects([], false)) else MatchedEffects(rules[1..]))
  }

  /** The effects so far in front of the rest. */
  function Prepended(done: seq<string>, matchedAny: bool, rest: Option<RuleEffects>): Option<RuleEffects> {
    if rest.None? then None else Some(RuleEffects(done + rest.value.effects, matchedAny || rest.value.matchedAny))
  }

  lemma PrependedTwice(a: seq<string>, m: bool, b: seq<string>, n: bool, rest: Option<RuleEffects>)
    ensures Prepended(a, m, Prepended(b, n, rest)) == Prepended(a + b, m || n, rest)
  {
    if rest.Some? {
      assert a + (b + rest.value.effects) == a + b + rest.value.effects;
    }
  }

  function PolicyEffects(p: Policy, requested: string): (r: Option<seq<string>>)
    ensures r.Some? ==> AllNormal(r.value)
  {
    if !Matches(requested, p.name, p.decision) then Some([])
    else
      var r := MatchedEffects(p.rules);
      if r.None? then None
      else if !r.value.matchedAny && p.defaultEffect != "" then Some(r.value.effects + [Normalize(p.defaultEffect)])
      else Some(r.value.effects)
  }

  function AllPolicyEffects(policies: seq<Policy>, requested: string): (r: Option<seq<string>>)
    ensures r.Some? ==> AllNormal(r.value)
  {
    if policies == [] then Some([])
    else
      var front := AllPolicyEffects(policies[..|policies| - 1], requested);
      if front.None? then None
      else
        var last := PolicyEffects(policies[|policies| - 1], requested);
        if last.None? then None else Some(front.value + last.value)
  }

  /** The decisions of the matching rule sets, in order; a failing engine fails the request. */
  function RuleSetDecisions(runs: seq<RuleSetRun>, requested: string): Option<seq<string>> {
    if runs == [] then Some([])
    else
      var front, run := RuleSetDecisions(runs[..|runs| - 1], requested), runs[|runs| - 1];
      if front.None? then None
      else if !Matches(requested, run.name, run.namespace) then front
      else if run.decision.None? then None
      else if run.decision.value == "" then front
      else Some(front.value + [run.decision.value])
  }

  function Normalized(decisions: seq<string>): (r: seq<string>)
    ensures |r| == |decisions| && (forall k :: 0 <= k < |r| ==> r[k] == Normalize(decisions[k])) && AllNormal(r)
  {
    seq(|decisions|, k requires 0 <= k < |decisions| => Normalize(decisions[k]))
  }

  datatype Response = Response(effect: string, decision: string, allowed: bool)

  /** What a request evaluates: `workflow` is the engine's result on the package's workflows, if it has any, and
      `fails` an error in validating the facts or in ranking. */
  datatype Request = Request(requested: string, policies: seq<Policy>, ruleSets: seq<RuleSetRun>,
                             workflow: Option<Option<string>>, fails: bool)

  /** The policy effects and the decisions that take part in a request. */
  datatype Parts = Parts(effects: seq<string>, decisions: seq<string>)

  /** None if something fails. */
  function PartsOf(req: Request): Option<Parts> {
    var effects := AllPolicyEffects(req.policies, req.requested);
    var sets := RuleSetDecisions(req.ruleSets, req.requested);
    if req.fails || effects.None? || sets.None? || req.workflow == Some(None) then None
    else
      Some(Parts(effects.value, sets.value + if req.workflow == None || req.workflow == Some(Some("")) then []
                                             else [req.workflow.value.value]))
  }

  // ---------- evaluation ----------

  lemma {:induction false} MatchedFrom(rules: seq<PolicyRule>, i: nat, done: seq<string>, matchedAny: bool)
    requires i < |rules|
    ensures var e, rest := Normalize(rules[i].effect), MatchedEffects(rules[i + 1..]);
            Prepended(done, matchedAny, MatchedEffects(rules[i..]))
            == match rules[i].outcome
               case Error => None
               case Fails => Prepended(done, matchedAny, rest)
               case Holds =>
                 Prepended(done + [e], true, if rules[i].stopOnMatch then Some(RuleEffects([], false)) else rest)
  {
    assert Prepended(done, matchedAny, None) == None;
    hide Prepended, Normalize;
    assert rules[i..][1..] == rules[i + 1..];
    PrependedTwice(done, matchedAny, [Normalize(rules[i].effect)], true,
                if rules[i].stopOnMatch then Some(RuleEffects([], false)) else MatchedEffects(rules[i + 1..]));
  }

  lemma {:induction false} WinnerOf(a: seq<string>, x: string)
    ensures Winner(a + [x]) == Resolve(Winner(a), x)
  {
    assert (a + [x])[..|a|] == a;
  }

  lemma NothingYet(requested: string)
    ensures Winner([]) == ABSTAIN && MatchedEffects([]) == Some(RuleEffects([], false))
            && RuleSetDecisions([], requested) == Some([])
  {
  }

  /** The loop over one policy's rules. */
  method EvaluateRules(rules: seq<PolicyRule>, start: string, ghost before: seq<string>)
    returns (effect: string, matchedAny: bool, ok: bool)
    requires start == Winner(before)
    ensures ok <==> MatchedEffects(rules).Some?
    ensures ok ==> matchedAny == MatchedEffects(rules).value.matchedAny
                   && effect == Winner(before + MatchedEffects(rules).value.effects)
  {
    hide MatchedEffects, Normalize, Winner, Resolve, Prepended;
    effect, matchedAny, ok := start, false, true;
    ghost var done: seq<string> := [];
    assert rules[0..] == rules && before + done == before;
    PrependedNothing(MatchedEffects(rules));
    for i := 0 to |rules|
      invariant ok && effect == Winner(before + done)
      invariant MatchedEffects(rules) == Prepended(done, matchedAny, MatchedEffects(rules[i..]))
    {
      var rule := rules[i];
      MatchedFrom(rules, i, done, matchedAny);
      if rule.outcome == Error {
        ok := false;
        return;
      }
      if rule.outcome == Fails {
        continue;
      }
      matchedAny := true;
      effect := Resolve(effect, Normalize(rule.effect));
      WinnerOf(before + done, Normalize(rule.effect));
      assert before + done + [Normalize(rule.effect)] == before + (done + [Normalize(rule.effect)]);
      done := done + [Normalize(rule.effect)];
      if rule.stopOnMatch {
        PrependedEnd(done, true);
        return;
      }
    }
    NothingYet("");
    assert rules[|rules|..] == [];
    PrependedEnd(done, matchedAny);
  }

  lemma PrependedNothing(rest: Option<RuleEffects>)
    ensures Prepended([], false, rest) == rest
  {
    if rest.Some? {
      assert [] + rest.value.effects == rest.value.effects;
    }
  }

  lemma PrependedEnd(done: seq<string>, matchedAny: bool)
    ensures Prepended(done, matchedAny, Some(RuleEffects([], false))) == Some(RuleEffects(done, matchedAny))
  {
    assert done + [] == done;
  }

  /** `evaluatePolicies`, its effect only. */
  method EvaluatePolicies(policies: seq<Policy>, requested: string) returns (effect: string, ok: bool)
    ensures ok <==> AllPolicyEffects(policies, requested).Some?
    ensures ok ==> effect == Winner(AllPolicyEffects(policies, requested).value)
    ensures ok ==> DecidedBy(AllPolicyEffects(policies, requested).value, effect)
  {
    hide Winner, Normalize, MatchedEffects, Resolve, Matches, DecidedBy;
    NothingYet(requested);
    effect, ok := ABSTAIN, true;
    ghost var all: seq<string> := [];
    for i := 0 to |policies|
      invariant ok && AllPolicyEffects(policies[..i], requested) == Some(all) && effect == Winner(all)
    {
      var policy := policies[i];
      assert policies[..i + 1][..i] == policies[..i];
      PoliciesFail(policies, requested, i + 1);
      if !Matches(requested, policy.name, policy.decision) {
        assert all + [] == all;
        continue;
      }
      var matchedAny;
      effect, matchedAny, ok := EvaluateRules(policy.rules, effect, all);
      if !ok {
        return;
      }
      ghost var matched, default := MatchedEffects(policy.rules).value.effects, Normalize(policy.defaultEffect);
      if !matchedAny && policy.defaultEffect != "" {
        effect := Resolve(effect, Normalize(policy.defaultEffect));
        WinnerOf(all + matched, default);
        assert all + matched + [default] == all + (matched + [default]);
      }
      all := all + PolicyEffects(policy, requested).value;
    }
    assert policies[..|policies|] == policies;
    WinnerByMembership(all);
  }

  /** A policy that fails fails them all. */
  lemma {:induction false} PoliciesFail(policies: seq<Policy>, requested: string, i: nat)
    requires i <= |policies|
    ensures AllPolicyEffects(policies[..i], requested).None? ==> AllPolicyEffects(policies, requested).None?
    decreases |policies|
  {
    if i == |policies| {
      assert policies[..i] == policies;
    } else {
      assert policies[..|policies| - 1][..i] == policies[..i];
      PoliciesFail(policies[..|policies| - 1], requested, i);
    }
  }

  /** The loop over the rule sets. `spoken` are the decisions so far. */
  method ApplyRuleSets(runs: seq<RuleSetRun>, requested: string, start: Response, ghost effects: seq<string>)
    returns (r: Response, ok: bool)
    requires start.effect == Winner(effects) && AllNormal(effects)
    ensures ok <==> RuleSetDecisions(runs, requested).Some?
    ensures ok ==> var spoken := RuleSetDecisions(runs, requested).value;
                   && r.allowed == start.allowed
                   && r.effect == Winner(effects + Normalized(spoken))
                   && r.decision == if spoken == [] then start.decision else spoken[|spoken| - 1]
  {
    hide Winner, Normalize, Resolve, Matches, RuleSetDecisions;
    NothingYet(requested);
    r, ok := start, true;
    ghost var spoken: seq<string> := [];
    assert effects + Normalized(spoken) == effects;
    assert runs[..0] == [];
    for i := 0 to |runs|
      invariant ok && RuleSetDecisions(runs[..i], requested) == Some(spoken) && r.allowed == start.allowed
      invariant r.effect == Winner(effects + Normalized(spoken))
      invariant r.decision == if spoken == [] then start.decision else spoken[|spoken| - 1]
    {
      var rs := runs[i];
      RuleSetsStep(runs, requested, i);
      if !Matches(requested, rs.name, rs.namespace) {
        continue;
      }
      if rs.decision.None? {
        ok := false;
        return;
      }
      if rs.decision.value != "" {
        r := r.(decision := rs.decision.value);
        var eff := Normalize(rs.decision.value);
        SpokenStep(effects, spoken, rs.decision.value);
        if eff != ABSTAIN {
          r := r.(effect := Resolve(r.effect, eff));
        }
        spoken := spoken + [rs.decision.value];
      }
    }
    assert runs[..|runs|] == runs;
  }

  lemma {:induction false} RuleSetsStep(runs: seq<RuleSetRun>, requested: string, i: nat)
    requires i < |runs| && RuleSetDecisions(runs[..i], requested).Some?
    ensures var front := RuleSetDecisions(runs[..i], requested).value;
            if !Matches(requested, runs[i].name, runs[i].namespace) then
              RuleSetDecisions(runs[..i + 1], requested) == Some(front)
            else if runs[i].decision.None? then RuleSetDecisions(runs, requested).None?
            else RuleSetDecisions(runs[..i + 1], requested)
                 == Some(if runs[i].decision.value == "" then front else front + [runs[i].decision.value])
  {
    assert runs[..i + 1][..i] == runs[..i];
    RuleSetsFail(runs, requested, i + 1);
  }

  lemma {:induction false} RuleSetsFail(runs: seq<RuleSetRun>, requested: string, i: nat)
    requires i <= |runs|
    ensures RuleSetDecisions(runs[..i], requested).None? ==> RuleSetDecisions(runs, requested).None?
    decreases |runs|
  {
    if i == |runs| {
      assert runs[..i] == runs;
    } else {
      assert runs[..|runs| - 1][..i] == runs[..i];
      RuleSetsFail(runs[..|runs| - 1], requested, i);
    }
  }

  /** One more decision: an abstaining one changes nothing. */
  lemma SpokenStep(effects: seq<string>, spoken: seq<string>, d: string)
    requires AllNormal(effects)
    ensures var w, n := Winner(effects + Normalized(spoken)), Normalize(d);
            Winner(effects + Normalized(spoken + [d])) == if n == ABSTAIN then w else Resolve(w, n)
  {
    hide Normalize, Winner, Rank, Resolve;
    var all := effects + Normalized(spoken);
    assert effects + Normalized(spoken + [d]) == all + [Normalize(d)];
    WinnerOf(all, Normalize(d));
    AbstainLast(all);
  }

  /** Abstaining last changes nothing. */
  lemma AbstainLast(effects: seq<string>)
    requires AllNormal(effects)
    ensures Resolve(Winner(effects), ABSTAIN) == Winner(effects)
  {
    hide Winner;
    var at := WinnerGreatest(effects);
    var w := Winner(effects);
    assert w != "";
    assert Rank(w) == 0 <==> w == ABSTAIN;
  }

  /** `applyEffect`. */
  function ApplyEffect(r: Response): Response {
    if r.effect == ALLOW then r.(allowed := true)
    else if r.effect == DENY || r.effect == REVIEW || r.effect == ESCALATE then r.(allowed := false)
    else if EqualFold(r.decision, ALLOW) then r.(allowed := true)
    else r
  }

  /** Every effect that takes part: those of the policies, then those of the rule sets' and workflow's decisions. */
  function TakingPart(effects: seq<string>, decisions: seq<string>): seq<string> {
    effects + Normalized(decisions)
  }

  /** `CompiledDecisionPackage.Evaluate`, its effect, decision and allowed fields. */
  method Evaluate(req: Request) returns (r: Option<Response>)
    ensures r.Some? <==> PartsOf(req).Some?
    ensures r.Some? ==>
              var p := PartsOf(req).value;
              && r.value.effect == Resolve(Winner(TakingPart(p.effects, p.decisions)), Winner(p.effects))
              && DecidedBy(TakingPart(p.effects, p.decisions), r.value.effect)
              && (r.value.allowed <==> r.value.effect == ALLOW)
              && r.value.decision == FinalDecision(p.effects, p.decisions, r.value.effect)
  {
    hide Winner, Resolve, Normalize, AllPolicyEffects, RuleSetDecisions, ApplyEffect, FinalDecision, Finish, DecidedBy;
    if req.fails {
      return None;
    }
    var policyEffect, ok := EvaluatePolicies(req.policies, req.requested);
    if !ok {
      return None;
    }
    ghost var effects := AllPolicyEffects(req.policies, req.requested).value;
    var response := Response(policyEffect, policyEffect, policyEffect == ALLOW);
    response, ok := ApplyRuleSets(req.ruleSets, req.requested, response, effects);
    if !ok {
      return None;
    }
    ghost var decisions := RuleSetDecisions(req.ruleSets, req.requested).value;
    if req.workflow.Some? && req.workflow.value.None? {
      return None;
    }
    response, decisions := ApplyWorkflow(req.workflow, response, effects, decisions);
    assert PartsOf(req) == Some(Parts(effects, decisions));
    r := Some(Finish(response, policyEffect));
    Finished(effects, decisions, response);
    FinalByMembership(effects, decisions);
  }

  /** The workflow's part. */
  method ApplyWorkflow(workflow: Option<Option<string>>, start: Response, ghost effects: seq<string>,
                       ghost decisions: seq<string>)
    returns (r: Response, ghost all: seq<string>)
    requires workflow != Some(None) && AllNormal(effects)
    requires start.effect == Winner(TakingPart(effects, decisions))
    ensures all == decisions + if workflow == None || workflow == Some(Some("")) then [] else [workflow.value.value]
    ensures r.effect == Winner(TakingPart(effects, all)) && r.allowed == start.allowed
    ensures r.decision == if all == decisions then start.decision else all[|all| - 1]
  {
    hide Winner, Resolve, Normalize, Rank;
    r, all := start, decisions;
    assert decisions + [] == decisions;
    if workflow.Some? {
      var d := workflow.value.value;
      if d != "" {
        SpokenStep(effects, decisions, d);
        AbstainLast(TakingPart(effects, decisions));
        r := r.(decision := d, effect := Resolve(r.effect, Normalize(d)));
        all := decisions + [d];
      }
    }
  }

  /** The policies' effect once more, then the allowed flag and the decision text. */
  function Finish(r: Response, policyEffect: string): Response {
    var s := ApplyEffect(r.(effect := Resolve(r.effect, policyEffect)));
    if s.decision == "" || s.decision == ABSTAIN then s.(decision := s.effect) else s
  }

  lemma Finished(effects: seq<string>, decisions: seq<string>, before: Response)
    requires before.effect == Winner(TakingPart(effects, decisions)) && AllNormal(effects)
    requires before.decision == if decisions == [] then Winner(effects) else decisions[|decisions| - 1]
    requires before.allowed == (Winner(effects) == ALLOW)
    ensures var r := Finish(before, Winner(effects));
            && r.effect == Resolve(Winner(TakingPart(effects, decisions)), Winner(effects))
            && (r.allowed <==> r.effect == ALLOW)
            && r.decision == FinalDecision(effects, decisions, r.effect)
  {
    hide Winner, Resolve, Normalize, EqualFold;
    AllowedExactly(effects, decisions, before, ApplyEffect(before.(effect := Resolve(before.effect, Winner(effects)))));
  }

  /** The last decision spoken, else the policies' effect; the final effect in place of an abstaining one. */
  function FinalDecision(effects: seq<string>, decisions: seq<string>, effect: string): string {
    var d := if decisions == [] then Winner(effects) else decisions[|decisions| - 1];
    if d == "" || d == ABSTAIN then effect else d
  }

  lemma FoldedNormal(d: string)
    requires EqualFold(d, ALLOW)
    ensures Normalize(d) == ALLOW && (Normal(d) ==> d == ALLOW)
  {
    var l := Text.Lower(d);
    assert l[0] == 'a' && l[4] == 'w';
    assert !BclCondition.Space(d[0]) && !BclCondition.Space(d[4]);
    assert BclCondition.Trim(d) == d;
  }

  /** Whatever the decision text says, allowed ends up true exactly for the effect allow. */
  lemma AllowedExactly(effects: seq<string>, decisions: seq<string>, before: Response, after: Response)
    requires before.effect == Winner(TakingPart(effects, decisions)) && AllNormal(effects)
    requires before.decision == if decisions == [] then Winner(effects) else decisions[|decisions| - 1]
    requires before.allowed == (Winner(effects) == ALLOW)
    requires after == ApplyEffect(before.(effect := Resolve(before.effect, Winner(effects))))
    ensures after.allowed <==> after.effect == ALLOW
  {
    hide Winner, EqualFold, Normalize, Rank;
    var all := TakingPart(effects, decisions);
    var at := WinnerGreatest(all);
    var last := WinnerGreatest(effects);
    WinnerAppend(effects, Normalized(decisions));
    RankAllows(Winner(all));
    RankAllows(Winner(effects));
    if EqualFold(before.decision, ALLOW) {
      FoldedNormal(before.decision);
      if decisions != [] {
        var n := |decisions| - 1;
        assert all[|effects| + n] == Normalized(decisions)[n] == ALLOW;
        assert Rank(ALLOW) <= Rank(Winner(all));
      }
    }
  }

  lemma RankAllows(e: string)
    ensures Rank(e) >= Rank(ALLOW) <==> e in [ALLOW, DENY, REVIEW, ESCALATE]
  {
  }

  /** The final effect is abstaining or an effect that takes part, and none that takes part ranks above it. Among
      unknown effects, which all rank alike, a policy's wins. */
  lemma FinalEffectGreatest(effects: seq<string>, decisions: seq<string>)
    ensures var all, final := TakingPart(effects, decisions),
            Resolve(Winner(TakingPart(effects, decisions)), Winner(effects));
            && (forall k :: 0 <= k < |all| ==> Rank(all[k]) <= Rank(final))
            && (final in all || (final == ABSTAIN && effects == []))
            && (Rank(final) == Rank(Winner(effects)) ==> final == Winner(effects))
  {
    hide Winner, Rank, Normalize;
    AbstainRank();
    var at := WinnerGreatest(TakingPart(effects, decisions));
    var last := WinnerGreatest(effects);
    WinnerAppend(effects, Normalized(decisions));
    if effects != [] {
      assert TakingPart(effects, decisions)[last] == effects[last];
    }
  }

  /** The final effect is decided by all the effects that take part. */
  lemma FinalByMembership(effects: seq<string>, decisions: seq<string>)
    requires AllNormal(effects)
    ensures DecidedBy(TakingPart(effects, decisions), Resolve(Winner(TakingPart(effects, decisions)), Winner(effects)))
  {
    hide Winner, Rank, Normalize, DecidedBy, Resolve;
    var all := TakingPart(effects, decisions);
    FinalEffectGreatest(effects, decisions);
    var final := Resolve(Winner(all), Winner(effects));
    if final !in all && all != [] {
      AbstainOnly(all, final);
    } else {
      GreatestDecides(all, final);
    }
  }

  /** Nothing but abstentions. */
  lemma AbstainOnly(parts: seq<string>, final: string)
    requires AllNormal(parts) && final == ABSTAIN && forall k :: 0 <= k < |parts| ==> Rank(parts[k]) <= Rank(final)
    ensures DecidedBy(parts, final)
  {
    assert forall e :: e in parts ==> exists k :: 0 <= k < |parts| && parts[k] == e;
  }

  /** The decision text is the last decision spoken, or the policies' effect when none is; where that abstains, it is
      the final effect. */
  lemma DecisionExactly(effects: seq<string>, decisions: seq<string>, effect: string)
    ensures decisions != [] && decisions[|decisions| - 1] !in {"", ABSTAIN} ==>
              FinalDecision(effects, decisions, effect) == decisions[|decisions| - 1]
    ensures decisions == [] && Winner(effects) !in {"", ABSTAIN} ==>
              FinalDecision(effects, decisions, effect) == Winner(effects)
    ensures (decisions != [] && decisions[|decisions| - 1] in {"", ABSTAIN})
            || (decisions == [] && Winner(effects) in {"", ABSTAIN}) ==>
              FinalDecision(effects, decisions, effect) == effect
  {
  }

  // ---------- who takes part ----------

  /** No matching rule before `k` stops the policy. */
  ghost predicate Reached(rules: seq<PolicyRule>, k: int) {
    0 <= k < |rules| && forall j :: 0 <= j < k ==> !(rules[j].outcome == Holds && rules[j].stopOnMatch)
  }

  ghost predicate MatchesAt(rules: seq<PolicyRule>, k: int) {
    Reached(rules, k) && rules[k].outcome == Holds
  }

  ghost predicate ErrsAt(rules: seq<PolicyRule>, k: int) {
    Reached(rules, k) && rules[k].outcome == Error
  }

  lemma ReachedNext(rules: seq<PolicyRule>, k: int)
    requires rules != [] && k >= 0
    ensures Reached(rules, 0)
    ensures Reached(rules, k + 1) <==>
            !(rules[0].outcome == Holds && rules[0].stopOnMatch) && Reached(rules[1..], k)
  {
    assert forall j :: 0 <= j < |rules[1..]| ==> rules[1..][j] == rules[j + 1];
    assert forall j :: 1 <= j < |rules| ==> rules[j] == rules[1..][j - 1];
  }

  /** `at` are the matching rules that are reached, in order. */
  ghost predicate MatchesAre(rules: seq<PolicyRule>, at: seq<nat>) {
    && (forall i, j :: 0 <= i < j < |at| ==> at[i] < at[j])
    && (forall k: int :: k in at <==> MatchesAt(rules, k))
  }

  ghost predicate EffectsAre(rules: seq<PolicyRule>, at: seq<nat>, effects: seq<string>) {
    |effects| == |at| && forall j :: 0 <= j < |at| ==> at[j] < |rules| && effects[j] == Normalize(rules[at[j]].effect)
  }

  function Later(at: seq<nat>): seq<nat> {
    seq(|at|, j requires 0 <= j < |at| => at[j] + 1)
  }

  /** The effects of one policy's rules are those of its matching rules, unless a rule that is reached errs. */
  lemma {:induction false} MatchedExactly(rules: seq<PolicyRule>) returns (at: seq<nat>)
    ensures MatchedEffects(rules).None? <==> exists k :: ErrsAt(rules, k)
    ensures MatchedEffects(rules).Some? ==>
              && MatchesAre(rules, at) && EffectsAre(rules, at, MatchedEffects(rules).value.effects)
              && (MatchedEffects(rules).value.matchedAny <==> at != [])
  {
    hide Normalize, MatchesAt, ErrsAt, MatchesAre, EffectsAre;
    at := [];
    if rules == [] {
      NothingReached(rules);
    } else {
      var rest := MatchedExactly(rules[1..]);
      ErrsNext(rules);
      match rules[0].outcome
      case Error =>
      case Fails =>
        at := Later(rest);
        if MatchedEffects(rules).Some? {
          LaterMatches(rules, rest, MatchedEffects(rules[1..]).value.effects);
        }
      case Holds =>
        if rules[0].stopOnMatch {
          at := [0] + Later([]);
          FirstMatches(rules, [], []);
        } else {
          at := [0] + Later(rest);
          if MatchedEffects(rules).Some? {
            FirstMatches(rules, rest, MatchedEffects(rules[1..]).value.effects);
          }
        }
    }
  }

  lemma LaterMatches(rules: seq<PolicyRule>, rest: seq<nat>, effects: seq<string>)
    requires rules != [] && rules[0].outcome == Fails
    requires MatchesAre(rules[1..], rest) && EffectsAre(rules[1..], rest, effects)
    ensures MatchesAre(rules, Later(rest)) && EffectsAre(rules, Later(rest), effects)
  {
    hide MatchesAt, Normalize;
    MatchesNext(rules);
    ShiftedMembers(rest, Later(rest));
  }

  /** A first rule that matches: alone if it stops the policy, else in front of the others. */
  lemma FirstMatches(rules: seq<PolicyRule>, rest: seq<nat>, effects: seq<string>)
    requires rules != [] && rules[0].outcome == Holds
    requires if rules[0].stopOnMatch then rest == [] && effects == []
             else MatchesAre(rules[1..], rest) && EffectsAre(rules[1..], rest, effects)
    ensures MatchesAre(rules, [0] + Later(rest))
    ensures EffectsAre(rules, [0] + Later(rest), [Normalize(rules[0].effect)] + effects)
  {
    hide MatchesAt, Normalize;
    MatchesNext(rules);
    ShiftedMembers(rest, Later(rest));
    var at := [0] + Later(rest);
    assert forall k: int :: k in at <==> k == 0 || k in Later(rest);
    assert forall j :: 0 < j < |at| ==> at[j] == rest[j - 1] + 1;
  }

  lemma NothingReached(rules: seq<PolicyRule>)
    requires rules == []
    ensures forall k :: !ErrsAt(rules, k)
    ensures MatchesAre(rules, []) && EffectsAre(rules, [], [])
  {
  }

  lemma MatchesNext(rules: seq<PolicyRule>)
    requires rules != []
    ensures forall k :: MatchesAt(rules, k) <==>
                        (k == 0 && rules[0].outcome == Holds)
                        || (k > 0 && !(rules[0].outcome == Holds && rules[0].stopOnMatch)
                            && MatchesAt(rules[1..], k - 1))
  {
    ReachedNext(rules, 0);
    forall k | k > 0
      ensures MatchesAt(rules, k) <==>
              !(rules[0].outcome == Holds && rules[0].stopOnMatch) && MatchesAt(rules[1..], k - 1)
    {
      ReachedNext(rules, k - 1);
    }
  }

  lemma ShiftedMembers(rest: seq<nat>, shifted: seq<nat>)
    requires |shifted| == |rest| && forall j :: 0 <= j < |rest| ==> shifted[j] == rest[j] + 1
    ensures forall k: int :: k in shifted <==> k > 0 && k - 1 in rest
  {
    forall k: int | k > 0 && k - 1 in rest
      ensures k in shifted
    {
      var j :| 0 <= j < |rest| && rest[j] == k - 1;
      assert shifted[j] == k;
    }
  }

  lemma ErrsNext(rules: seq<PolicyRule>)
    requires rules != []
    ensures (exists k :: ErrsAt(rules, k)) <==>
            rules[0].outcome == Error
            || (!(rules[0].outcome == Holds && rules[0].stopOnMatch) && exists k :: ErrsAt(rules[1..], k))
  {
    ReachedNext(rules, 0);
    if exists k :: ErrsAt(rules, k) {
      var k :| ErrsAt(rules, k);
      if k > 0 {
        ReachedNext(rules, k - 1);
        assert ErrsAt(rules[1..], k - 1);
      }
    }
    if rules[0].outcome == Error {
      assert ErrsAt(rules, 0);
    }
    if !(rules[0].outcome == Holds && rules[0].stopOnMatch) && exists k :: ErrsAt(rules[1..], k) {
      var k :| ErrsAt(rules[1..], k);
      ReachedNext(rules, k);
      assert ErrsAt(rules, k + 1);
    }
  }

  /** A policy asked for takes part with the effects of its matching rules, or with its default if none matches. */
  ghost predicate TakesPart(p: Policy, requested: string, e: string) {
    && (requested == "" || requested == p.name || requested == p.decision)
    && ((exists k :: MatchesAt(p.rules, k) && Normalize(p.rules[k].effect) == e)
        || ((forall k :: !MatchesAt(p.rules, k)) && p.defaultEffect != "" && Normalize(p.defaultEffect) == e))
  }

  ghost predicate PolicyErrs(p: Policy, requested: string) {
    (requested == "" || requested == p.name || requested == p.decision) && exists k :: ErrsAt(p.rules, k)
  }

  lemma PolicyExactly(p: Policy, requested: string)
    ensures PolicyEffects(p, requested).None? <==> PolicyErrs(p, requested)
    ensures PolicyEffects(p, requested).Some? ==>
              forall e :: e in PolicyEffects(p, requested).value <==> TakesPart(p, requested, e)
  {
    hide Normalize, MatchesAt, ErrsAt;
    var at := MatchedExactly(p.rules);
    if Matches(requested, p.name, p.decision) && MatchedEffects(p.rules).Some? {
      var effects := MatchedEffects(p.rules).value.effects;
      assert at != [] ==> at[0] in at;
      assert forall j :: 0 <= j < |at| ==> at[j] in at;
      forall e
        ensures e in effects <==> exists k :: MatchesAt(p.rules, k) && Normalize(p.rules[k].effect) == e
      {
        if e in effects {
          var j :| 0 <= j < |effects| && effects[j] == e;
          assert MatchesAt(p.rules, at[j]);
        }
        if exists k :: MatchesAt(p.rules, k) && Normalize(p.rules[k].effect) == e {
          var k :| MatchesAt(p.rules, k) && Normalize(p.rules[k].effect) == e;
          var j :| 0 <= j < |at| && at[j] == k;
          assert effects[j] == e;
        }
      }
    }
  }

  /** The effects of all policies are those with which some policy takes part. */
  lemma {:induction false} PoliciesExactly(policies: seq<Policy>, requested: string)
    ensures AllPolicyEffects(policies, requested).None? <==>
            exists i :: 0 <= i < |policies| && PolicyErrs(policies[i], requested)
    ensures AllPolicyEffects(policies, requested).Some? ==>
              forall e :: e in AllPolicyEffects(policies, requested).value <==>
                          exists i :: 0 <= i < |policies| && TakesPart(policies[i], requested, e)
  {
    hide PolicyErrs, TakesPart, PolicyEffects;
    if policies != [] {
      var n := |policies| - 1;
      PoliciesExactly(policies[..n], requested);
      PolicyExactly(policies[n], requested);
      assert forall i :: 0 <= i < n ==> policies[..n][i] == policies[i];
    }
  }

  /** A rule set asked for that reaches a decision. */
  ghost predicate Speaks(run: RuleSetRun, requested: string) {
    && (requested == "" || requested == run.name || requested == run.namespace)
    && run.decision.Some? && run.decision.value != ""
  }

  ghost predicate RunFails(run: RuleSetRun, requested: string) {
    (requested == "" || requested == run.name || requested == run.namespace) && run.decision.None?
  }

  /** The decisions of the rule sets: `at` are those that speak, in order. */
  lemma {:induction false} RuleSetsExactly(runs: seq<RuleSetRun>, requested: string) returns (at: seq<nat>)
    ensures RuleSetDecisions(runs, requested).None? <==> exists k :: 0 <= k < |runs| && RunFails(runs[k], requested)
    ensures RuleSetDecisions(runs, requested).Some? ==>
              var d := RuleSetDecisions(runs, requested).value;
              && |at| == |d| && (forall i, j :: 0 <= i < j < |at| ==> at[i] < at[j])
              && (forall k :: k in at <==> 0 <= k < |runs| && Speaks(runs[k], requested))
              && forall j :: 0 <= j < |at| ==> at[j] < |runs| && runs[at[j]].decision == Some(d[j])
  {
    at := [];
    if runs != [] {
      var n := |runs| - 1;
      at := RuleSetsExactly(runs[..n], requested);
      assert forall j :: 0 <= j < |at| ==> at[j] in at;
      assert forall i :: 0 <= i < n ==> runs[..n][i] == runs[i];
      if Speaks(runs[n], requested) {
        at := at + [n];
      }
    }
  }

  lemma AllowNormal()
    ensures Normalize(ALLOW) == ALLOW
  {
    assert Text.Lower(ALLOW) == ALLOW;
    assert "" + ALLOW + "" == ALLOW;
    NormalizeExactly("", ALLOW, "");
  }

  /** The decision text is not the effect: a policy's deny stands while a rule set's decision says allow. */
  lemma DecisionCanDisagree(effects: seq<string>)
    requires AllNormal(effects) && Winner(effects) == DENY
    ensures Resolve(Winner(TakingPart(effects, [ALLOW])), Winner(effects)) == DENY
    ensures FinalDecision(effects, [ALLOW], DENY) == ALLOW
  {
    hide Winner, BclCondition.Trim, Text.Lower;
    AllowNormal();
    assert Normalized([ALLOW]) == [ALLOW];
    assert TakingPart(effects, [ALLOW]) == effects + [ALLOW];
    WinnerOf(effects, ALLOW);
  }
}
