/** The rule engine (engine.go) and the bytecode program (bytecode.go) give the same result for the same rule set. */
module EngineParity {
  import opened Wrappers
  import opened Outcomes
  import opened Rules
  import opened BytecodeRegistry
  import opened BytecodeExpr
  import opened BytecodeCompiler
  import opened BytecodeVM
  import opened BytecodeCorrect
  import opened BytecodeIndex
  import opened BytecodeProgram
  import opened BytecodeScan
  import opened BytecodeRuleSet
  import BytecodeFacts
  import Engine
  import StableSort
  import Text

  // ---------- one rule ----------

  /** Where the two implementations read a rule alike: numbers that survive truncation, words in lower case,
      registered action types other than "score", and no flow control. */
  ghost predicate Plain(rule: Rule) {
    && Int32(rule.priority) == rule.priority && Int32(rule.salience) == rule.salience
    && Trunc(rule.score) as real == rule.score
    && (EqualFold(rule.decision, "allow") ==> rule.decision == "allow")
    && (EqualFold(rule.decision, "deny") ==> rule.decision == "deny")
    && AllRegistered(rule.actions)
    && !rule.stopOnMatch && rule.nextStage == "" && rule.namespace == ""
  }

  ghost predicate Same(er: Engine.Result, br: Result) {
    && er.matched == br.matched && er.ids == br.ids && er.allowed == br.allowed
    && er.score == br.score && er.decision == br.decision
  }

  /** The compiled rule acts, decides and is timed as its source. */
  ghost predicate Mirrors(env: Engine.Env, p: RuleProgram, rule: Rule, cr: CompiledRule) {
    && cr.id == env.ruleId(rule.id) && cr.validFrom == rule.validFrom && cr.validUntil == rule.validUntil
    && !rule.disabled && cr.mode == p.mode
    && cr.priority == rule.priority && cr.salience == rule.salience
    && cr.actions == ImpliedActions(rule) + Registered(rule.actions)
    && (cr.decision != 0 <==> rule.decision != "")
    && (cr.decision != 0 ==> NameOf(p.strings, cr.decision) == rule.decision)
  }

  /** The engine's verdict on a rule's condition is that of the compiled code. */
  predicate Agrees(env: Engine.Env, p: RuleProgram, facts: Option<TypedFacts>, rule: Rule, cr: CompiledRule) {
    env.condition(rule.condition) == if Accepts(cr.code, facts, p.sets) then Holds else Fails
  }

  /** A rule and its compiled form. */
  ghost predicate Twin(env: Engine.Env, p: RuleProgram, facts: Option<TypedFacts>, rule: Rule, cr: CompiledRule) {
    Mirrors(env, p, rule, cr) && Agrees(env, p, facts, rule, cr)
  }

  /** Registered action types, by number. */
  function Registered(actions: seq<Action>): seq<CompiledAction> {
    seq(|actions|, k requires 0 <= k < |actions| =>
      CompiledAction(if actions[k].kind in ActionTypes() then ActionTypes()[actions[k].kind] else 0, actions[k].value))
  }

  lemma RegisteredWord(kind: string)
    requires kind in ActionTypes()
    ensures EqualFold(kind, "allow") <==> ActionTypes()[kind] == ACTION_ALLOW
    ensures EqualFold(kind, "deny") <==> ActionTypes()[kind] == ACTION_DENY
    ensures ActionTypes()[kind] == ACTION_SCORE <==> kind == "score"
  {
    assert |Text.Lower(kind)| == |kind|;
    if |kind| == 5 {
      assert Text.Lower(kind)[0] == kind[0];
      assert Text.Lower("allow") == "allow";
    } else if |kind| == 4 {
      assert Text.Lower("deny") == "deny";
    }
  }

  ghost predicate AllRegistered(actions: seq<Action>) {
    forall k :: 0 <= k < |actions| ==> actions[k].kind in ActionTypes() && actions[k].kind != "score"
  }

  lemma {:induction false} CompileRegistered(actions: seq<Action>, refs: seq<string>)
    requires AllRegistered(actions)
    ensures CompileOwnActions(actions, refs).0 == Registered(actions)
  {
    if actions != [] {
      assert actions[0].kind in ActionTypes();
      CompileRegistered(actions[1..], AddAll(refs, actions[0].words));
      assert Registered(actions) == [Registered(actions)[0]] + Registered(actions[1..]);
    }
  }

  lemma {:induction false} OwnActionsTwin(res: Result, actions: seq<Action>)
    requires AllRegistered(actions)
    ensures ApplyActions(res, Registered(actions)) == res.(allowed := Engine.ApplyActions(res.allowed, actions))
    ensures HasKind(Registered(actions), ACTION_ALLOW) <==> Engine.HasAction(actions, "allow")
    ensures HasKind(Registered(actions), ACTION_DENY) <==> Engine.HasAction(actions, "deny")
  {
    var compiled := Registered(actions);
    forall k | 0 <= k < |actions|
      ensures compiled[k].kind == ACTION_ALLOW <==> EqualFold(actions[k].kind, "allow")
      ensures compiled[k].kind == ACTION_DENY <==> EqualFold(actions[k].kind, "deny")
      ensures compiled[k].kind != ACTION_SCORE
    {
      RegisteredWord(actions[k].kind);
    }
    if actions != [] {
      var n := |actions| - 1;
      OwnActionsTwin(res, actions[..n]);
      assert compiled[..n] == Registered(actions[..n]);
    }
  }

  lemma ApplyOne(res: Result, a: CompiledAction)
    ensures ApplyActions(res, [a]) == ApplyAction(res, a)
  {
    assert [a][..0] == [];
    assert ApplyActions(res, [a][..0]) == res;
  }

  lemma DecisionTwins(res: Result, decision: string)
    requires EqualFold(decision, "allow") ==> decision == "allow"
    requires EqualFold(decision, "deny") ==> decision == "deny"
    ensures ApplyActions(res, DecisionActions(decision)) ==
            res.(allowed := if decision != "" then Engine.ApplyWord(res.allowed, decision) else res.allowed)
    ensures HasKind(DecisionActions(decision), ACTION_ALLOW) <==> EqualFold(decision, "allow")
    ensures HasKind(DecisionActions(decision), ACTION_DENY) <==> EqualFold(decision, "deny")
  {
    assert Text.Lower("allow") == "allow" && Text.Lower("deny") == "deny";
    ApplyOne(res, CompiledAction(ACTION_ALLOW, 0));
    ApplyOne(res, CompiledAction(ACTION_DENY, 0));
    if decision == "allow" || decision == "deny" {
      assert DecisionActions(decision)[0].kind == if decision == "allow" then ACTION_ALLOW else ACTION_DENY;
    }
  }

  lemma ScoreTwin(res: Result, score: real)
    requires Trunc(score) as real == score
    ensures ApplyActions(res, ScoreActions(score))
            == res.(score := res.score + score, scoreValue := res.scoreValue + Trunc(score))
    ensures !HasKind(ScoreActions(score), ACTION_ALLOW) && !HasKind(ScoreActions(score), ACTION_DENY)
  {
    ApplyOne(res, CompiledAction(ACTION_SCORE, Trunc(score)));
  }

  lemma ImpliedActionsTwin(res: Result, rule: Rule)
    requires Plain(rule)
    ensures ApplyActions(res, ImpliedActions(rule)) ==
            res.(allowed := if rule.decision != "" then Engine.ApplyWord(res.allowed, rule.decision) else res.allowed,
                 score := res.score + rule.score, scoreValue := res.scoreValue + Trunc(rule.score))
    ensures HasKind(ImpliedActions(rule), ACTION_ALLOW) <==> EqualFold(rule.decision, "allow")
    ensures HasKind(ImpliedActions(rule), ACTION_DENY) <==> EqualFold(rule.decision, "deny")
  {
    DecisionTwins(res, rule.decision);
    ScoreTwin(ApplyActions(res, DecisionActions(rule.decision)), rule.score);
    ApplyActionsAppend(res, DecisionActions(rule.decision), ScoreActions(rule.score));
    HasKindAppend(DecisionActions(rule.decision), ScoreActions(rule.score), ACTION_ALLOW);
    HasKindAppend(DecisionActions(rule.decision), ScoreActions(rule.score), ACTION_DENY);
  }

  /** Applying a rule and its compiled form keeps results the same, and both stop or neither does. */
  lemma ApplyTwin(env: Engine.Env, p: RuleProgram, facts: Option<TypedFacts>, rule: Rule, cr: CompiledRule,
                  er: Engine.Result, br: Result)
    requires Plain(rule) && Twin(env, p, facts, rule, cr) && Same(er, br)
    ensures Same(Engine.Apply(env, er, rule), Apply(p, br, cr))
  {
    hide Trunc, Int32, ActionTypes, Registered, ImpliedActions, ApplyActions, Engine.ApplyActions;
    var start := br.(matched := true, ids := br.ids + [cr.id], actions := br.actions + cr.actions);
    ImpliedActionsTwin(start, rule);
    OwnActionsTwin(ApplyActions(start, ImpliedActions(rule)), rule.actions);
    ApplyActionsAppend(start, ImpliedActions(rule), Registered(rule.actions));
  }

  lemma StopsTwin(env: Engine.Env, p: RuleProgram, facts: Option<TypedFacts>, rule: Rule, cr: CompiledRule)
    requires Plain(rule) && Twin(env, p, facts, rule, cr)
    ensures StopsAfter(p, cr) <==> Engine.Stops(p.mode, rule)
  {
    hide Trunc, Int32, ActionTypes, Registered, ImpliedActions, HasKind, Text.Lower;
    var implied, own := ImpliedActions(rule), Registered(rule.actions);
    ImpliedActionsTwin(NoResult, rule);
    OwnActionsTwin(NoResult, rule.actions);
    HasKindAppend(implied, own, ACTION_ALLOW);
    HasKindAppend(implied, own, ACTION_DENY);
  }

  lemma HasKindAppend(a: seq<CompiledAction>, b: seq<CompiledAction>, kind: int)
    ensures HasKind(a + b, kind) <==> HasKind(a, kind) || HasKind(b, kind)
  {
    if HasKind(a, kind) {
      var k :| 0 <= k < |a| && a[k].kind == kind;
      assert (a + b)[k].kind == kind;
    }
    if HasKind(b, kind) {
      var k :| 0 <= k < |b| && b[k].kind == kind;
      assert (a + b)[|a| + k].kind == kind;
    }
  }

  // ---------- a list of rules ----------

  ghost predicate Twins(env: Engine.Env, p: RuleProgram, facts: Option<TypedFacts>, rules: seq<Rule>,
                        crs: seq<CompiledRule>) {
    |rules| == |crs| && forall k :: 0 <= k < |rules| ==> Plain(rules[k]) && Twin(env, p, facts, rules[k], crs[k])
  }

  lemma {:induction false} EvalTwins(env: Engine.Env, p: RuleProgram, facts: Option<TypedFacts>, rules: seq<Rule>,
                                     crs: seq<CompiledRule>,
                                     er: Engine.Result, br: Result)
    requires Twins(env, p, facts, rules, crs) && Same(er, br)
    ensures var run := Engine.EvalRules(env, rules, p.mode, er);
            !run.err && run.next == "" && Same(run.result, EvalList(p, facts, env.now, crs, br))
    decreases |rules|
  {
    if rules != [] {
      var rule, cr := rules[0], crs[0];
      assert Twin(env, p, facts, rule, cr);
      StopsTwin(env, p, facts, rule, cr);
      if Fires(p, facts, env.now, cr) {
        ApplyTwin(env, p, facts, rule, cr, er, br);
        if !StopsAfter(p, cr) {
          EvalTwins(env, p, facts, rules[1..], crs[1..], Engine.Apply(env, er, rule), Apply(p, br, cr));
        }
      } else {
        EvalTwins(env, p, facts, rules[1..], crs[1..], er, br);
      }
    }
  }

  // ---------- disabled rules and order ----------

  function Enabled(rules: seq<Rule>): seq<Rule> {
    if rules == [] then [] else (if rules[0].disabled then [] else [rules[0]]) + Enabled(rules[1..])
  }

  lemma {:induction false} EnabledEval(env: Engine.Env, rules: seq<Rule>, mode: ExecutionMode, res: Engine.Result)
    ensures Engine.EvalRules(env, Enabled(rules), mode, res) == Engine.EvalRules(env, rules, mode, res)
    decreases |rules|
  {
    if rules != [] {
      var r := rules[0];
      if r.disabled {
        assert Enabled(rules) == Enabled(rules[1..]);
        EnabledEval(env, rules[1..], mode, res);
      } else {
        assert Enabled(rules)[1..] == Enabled(rules[1..]);
        EnabledEval(env, rules[1..], mode, res);
        EnabledEval(env, rules[1..], mode, Engine.Apply(env, res, r));
      }
    }
  }

  lemma {:induction false} EnabledMembers(rules: seq<Rule>)
    ensures forall r :: r in Enabled(rules) <==> r in rules && !r.disabled
  {
    if rules != [] {
      EnabledMembers(rules[1..]);
    }
  }

  lemma {:induction false} EnabledOrdered(rules: seq<Rule>)
    requires StableSort.NoDuplicates(rules) && StableSort.Sorted(rules, Engine.RuleBefore())
    ensures StableSort.NoDuplicates(Enabled(rules)) && StableSort.Sorted(Enabled(rules), Engine.RuleBefore())
  {
    if rules != [] {
      var rest := rules[1..];
      EnabledOrdered(rest);
      EnabledMembers(rest);
      var kept := Enabled(rest);
      forall k | 0 <= k < |kept|
        ensures kept[k] != rules[0] && !Engine.RuleBefore()(kept[k], rules[0])
      {
        assert kept[k] in kept;
        var m :| 0 <= m < |rest| && rest[m] == kept[k];
        assert rules[m + 1] == kept[k];
      }
    }
  }

  /** No two rules tie on priority and salience. */
  ghost predicate Ranked(rules: seq<Rule>) {
    forall i, j :: 0 <= i < j < |rules| ==>
                  rules[i].priority != rules[j].priority || rules[i].salience != rules[j].salience
  }

  lemma RuleBeforeIsOrder()
    ensures StableSort.Order(Engine.RuleBefore())
  {
  }

  /** The enabled rules in engine order are the sorted arrangement of the enabled rules. */
  lemma EngineOrder(rules: seq<Rule>, enabled: seq<Rule>)
    requires Ranked(rules)
    requires StableSort.NoDuplicates(enabled) && StableSort.Sorted(enabled, Engine.RuleBefore())
    requires forall r :: r in enabled <==> r in rules && !r.disabled
    ensures Enabled(Engine.SortRules(rules)) == enabled
  {
    var before := Engine.RuleBefore();
    var sorted := Engine.SortRules(rules);
    RuleBeforeIsOrder();
    assert StableSort.NoDuplicates(rules);
    StableSort.SortSorted(rules, before);
    StableSort.SortNoDuplicates(rules, before);
    StableSort.SortMembers(rules, before);
    EnabledOrdered(sorted);
    EnabledMembers(sorted);
    StableSort.NoDuplicatesSame(Enabled(sorted), enabled);
    assert StableSort.Apart(enabled, before) by {
      forall x, y | x in enabled && y in enabled && x != y
        ensures before(x, y) || before(y, x)
      {
        var i :| 0 <= i < |rules| && rules[i] == x;
        var j :| 0 <= j < |rules| && rules[j] == y;
      }
    }
    StableSort.SortedUnique(enabled, Enabled(sorted), before);
  }

  /** Rule `k` in the program's order is the rule its index names. */
  function RulesInOrder(rules: seq<Rule>, s: seq<int>): seq<Rule>
    requires forall k :: 0 <= k < |s| ==> 0 <= s[k] < |rules|
  {
    seq(|s|, k requires 0 <= k < |s| => rules[s[k]])
  }

  lemma {:induction false} EnabledRanked(rules: seq<Rule>)
    requires Ranked(rules)
    ensures Ranked(Enabled(rules))
  {
    if rules != [] {
      var rest := rules[1..];
      EnabledRanked(rest);
      EnabledMembers(rest);
      var kept := Enabled(rest);
      forall k | 0 <= k < |kept|
        ensures kept[k].priority != rules[0].priority || kept[k].salience != rules[0].salience
      {
        assert kept[k] in kept;
        var m :| 0 <= m < |rest| && rest[m] == kept[k];
        assert rules[m + 1] == kept[k];
      }
    }
  }

  lemma InOrderSorted(p: RuleProgram, enabled: seq<Rule>, s: seq<int>)
    requires |enabled| == |p.rules| && Ranked(enabled) && InRange(s, p.rules)
    requires StableSort.NoDuplicates(s) && StableSort.Sorted(s, IndexBefore(p.rules))
    requires forall k :: 0 <= k < |p.rules| ==>
                           p.rules[k].priority == enabled[k].priority && p.rules[k].salience == enabled[k].salience
    ensures StableSort.NoDuplicates(RulesInOrder(enabled, s))
            && StableSort.Sorted(RulesInOrder(enabled, s), Engine.RuleBefore())
  {
    var list := RulesInOrder(enabled, s);
    forall i, j | 0 <= i < j < |list|
      ensures !Engine.RuleBefore()(list[j], list[i]) && list[i] != list[j]
    {
      assert s[i] != s[j] && !IndexBefore(p.rules)(s[j], s[i]);
    }
  }

  /** Every enabled rule has been compiled in the namespace and keeps its rank. */
  ghost predicate RanksKept(p: RuleProgram, ns: int, enabled: seq<Rule>) {
    && |p.rules| == |enabled|
    && forall k :: 0 <= k < |p.rules| ==>
                     && p.rules[k].namespace == ns
                     && p.rules[k].priority == enabled[k].priority && p.rules[k].salience == enabled[k].salience
  }

  /** The program scans the compiled forms of the enabled rules in engine order. */
  lemma ScanOrder(p: RuleProgram, ns: int, rules: seq<Rule>)
    requires Valid(p) && Ranked(rules) && RanksKept(p, ns, Enabled(rules))
    ensures InRange(Get(p.byNamespace, ns), p.rules)
    ensures RulesInOrder(Enabled(rules), Get(p.byNamespace, ns)) == Enabled(Engine.SortRules(rules))
  {
    var s, enabled := Get(p.byNamespace, ns), Enabled(rules);
    assert Lists(s, p.rules, InNamespace(ns), IndexOrder(p.rules));
    assert forall k :: 0 <= k < |s| ==> s[k] in s;
    EnabledRanked(rules);
    EnabledMembers(rules);
    var list := RulesInOrder(enabled, s);
    InOrderSorted(p, enabled, s);
    forall r
      ensures r in list <==> r in enabled
    {
      if r in enabled {
        var i :| 0 <= i < |enabled| && enabled[i] == r;
        assert i in s;
        var k :| 0 <= k < |s| && s[k] == i;
        assert list[k] == r;
      }
    }
    EngineOrder(rules, list);
  }

  // ---------- compiled rules are twins ----------

  /** The engine's verdict on a condition is its meaning over the same facts; a rule without one always holds. */
  ghost predicate ConditionsMean(env: Engine.Env, rl: RuleLib, rules: seq<Rule>, named: Option<Facts>) {
    forall r :: r in rules ==>
                  env.condition(r.condition) ==
                  match rl.conditions(r.condition)
                  case None => Holds
                  case Some(e) => if Meaning(e, named, rl.lib) then Holds else Fails
  }

  ghost predicate ConditionsExact(rl: RuleLib, rules: seq<Rule>, named: Option<Facts>, strings: seq<string>) {
    forall r :: r in rules && rl.conditions(r.condition).Some? ==>
        Exact(rl.conditions(r.condition).value, named, strings, rl.lib)
  }

  /** What becomes of one compiled rule in the finished program `p`, whose tables are `final`. */
  ghost predicate Finished(env: Engine.Env, rl: RuleLib, mode: ExecutionMode, p: RuleProgram, t: Tables,
                           final: Tables) {
    && Extends(t, final) && WellFormed(final) && Fits(final) && rl.ruleId == env.ruleId
    && p.sets == final.sets && p.strings == final.strings && p.mode == mode
  }

  /** Where `p` is evaluated: the tables may have grown since it was compiled, its sets have not. */
  ghost predicate Later(p: RuleProgram, t: Tables, later: Tables) {
    Extends(t, later) && WellFormed(later) && Fits(later) && p.sets == later.sets
  }

  /** A plain rule compiles to one that acts, decides and stops as it does. */
  lemma CompiledMirrors(env: Engine.Env, rl: RuleLib, mode: ExecutionMode, ns: int, rule: Rule, st: State,
                        p: RuleProgram, final: Tables)
    requires CompileRule(rl, mode, ns, rule, st).0.Some?
    requires Finished(env, rl, mode, p, CompileRule(rl, mode, ns, rule, st).1.t, final)
    requires Plain(rule) && !rule.disabled
    ensures Mirrors(env, p, rule, CompileRule(rl, mode, ns, rule, st).0.value)
    ensures CompileRule(rl, mode, ns, rule, st).0.value.namespace == ns
  {
    CompileRegistered(rule.actions, st.refs);
    if rule.decision != "" {
      var strings := CompileRule(rl, mode, ns, rule, st).1.t.strings;
      IdStable(strings, final.strings, rule.decision, ID_WIDTH);
      IdsInjective(final.strings, ID_WIDTH);
      NameOfId(final.strings, rule.decision, ID_WIDTH);
    }
  }

  /** Where the engine evaluates a condition to its meaning and the compiled code is exact, the two agree on it. */
  lemma CompiledAgrees(env: Engine.Env, rl: RuleLib, mode: ExecutionMode, ns: int, rule: Rule, st: State,
                       p: RuleProgram, later: Tables, facts: Option<TypedFacts>, named: Option<Facts>)
    requires StateWellFormed(st) && CompileRule(rl, mode, ns, rule, st).0.Some?
    requires Later(p, CompileRule(rl, mode, ns, rule, st).1.t, later)
    requires Represents(facts, named, later)
    requires ConditionsMean(env, rl, [rule], named) && ConditionsExact(rl, [rule], named, later.strings)
    ensures Agrees(env, p, facts, rule, CompileRule(rl, mode, ns, rule, st).0.value)
  {
    var cond := rl.conditions(rule.condition);
    assert rule in [rule];
    if cond.Some? {
      var u := CompileExpr(cond.value, st.t, rl.lib).1;
      CompileGrows(cond.value, st.t, rl.lib);
      FirstIndexGrows(cond.value, u, rl.lib);
      ExtendsTransitive(u, CompileRule(rl, mode, ns, rule, st).1.t, later);
      VerdictIsMeaning(cond.value, st.t, later, facts, named, rl.lib);
    } else {
      PushesOne(Constant(true), facts, p.sets, true);
      AcceptsPushed([Constant(true)], facts, p.sets, true);
    }
  }

  ghost predicate AllPlain(rules: seq<Rule>) {
    forall r :: r in rules ==> Plain(r)
  }

  ghost predicate AllMirror(env: Engine.Env, p: RuleProgram, ns: int, enabled: seq<Rule>, crs: seq<CompiledRule>) {
    |crs| == |enabled| && forall k :: 0 <= k < |crs| ==> Mirrors(env, p, enabled[k], crs[k]) && crs[k].namespace == ns
  }

  ghost predicate AllAgree(env: Engine.Env, p: RuleProgram, facts: Option<TypedFacts>, enabled: seq<Rule>,
                           crs: seq<CompiledRule>) {
    |crs| == |enabled| && forall k :: 0 <= k < |crs| ==> Agrees(env, p, facts, enabled[k], crs[k])
  }

  lemma EarlierExtends(rl: RuleLib, mode: ExecutionMode, ns: int, rules: seq<Rule>, st: State, final: Tables)
    requires rules != [] && StateWellFormed(st) && CompileRules(rl, mode, ns, rules, st).0.Some?
    requires Extends(CompileRules(rl, mode, ns, rules, st).1.t, final)
    ensures var first := CompileRule(rl, mode, ns, rules[0], st);
            && StateWellFormed(first.1) && Extends(first.1.t, final)
            && Extends(CompileRules(rl, mode, ns, rules[1..], first.1).1.t, final)
  {
    hide CompileRule;
    var first := CompileRule(rl, mode, ns, rules[0], st);
    RuleKeepsState(rl, mode, ns, rules[0], st);
    RulesKeepState(rl, mode, ns, rules[1..], first.1);
    ExtendsTransitive(first.1.t, CompileRules(rl, mode, ns, rules[1..], first.1).1.t, final);
  }

  lemma {:induction false} CompiledAllMirror(env: Engine.Env, rl: RuleLib, mode: ExecutionMode, ns: int,
                                             rules: seq<Rule>,
                                             st: State, p: RuleProgram, final: Tables)
    requires StateWellFormed(st) && CompileRules(rl, mode, ns, rules, st).0.Some? && AllPlain(rules)
    requires Finished(env, rl, mode, p, CompileRules(rl, mode, ns, rules, st).1.t, final)
    ensures AllMirror(env, p, ns, Enabled(rules), CompileRules(rl, mode, ns, rules, st).0.value)
    decreases |rules|
  {
    hide CompileRule, Mirrors, Plain, Extends, WellFormed, Fits, StateWellFormed;
    if rules != [] {
      var first := CompileRule(rl, mode, ns, rules[0], st);
      EarlierExtends(rl, mode, ns, rules, st, final);
      CompiledAllMirror(env, rl, mode, ns, rules[1..], first.1, p, final);
      if !rules[0].disabled {
        CompiledMirrors(env, rl, mode, ns, rules[0], st, p, final);
      }
    }
  }

  lemma ConditionsOfSome(env: Engine.Env, rl: RuleLib, rules: seq<Rule>, named: Option<Facts>, strings: seq<string>)
    requires rules != [] && ConditionsMean(env, rl, rules, named) && ConditionsExact(rl, rules, named, strings)
    ensures ConditionsMean(env, rl, [rules[0]], named) && ConditionsExact(rl, [rules[0]], named, strings)
    ensures ConditionsMean(env, rl, rules[1..], named) && ConditionsExact(rl, rules[1..], named, strings)
  {
    hide Meaning, Exact;
    assert forall r :: r in [rules[0]] || r in rules[1..] ==> r in rules;
  }

  lemma {:induction false} CompiledAllAgree(env: Engine.Env, rl: RuleLib, mode: ExecutionMode, ns: int,
                                            rules: seq<Rule>,
                                            st: State, p: RuleProgram, later: Tables,
                                            facts: Option<TypedFacts>, named: Option<Facts>)
    requires StateWellFormed(st) && CompileRules(rl, mode, ns, rules, st).0.Some?
    requires Later(p, CompileRules(rl, mode, ns, rules, st).1.t, later)
    requires Represents(facts, named, later)
    requires ConditionsMean(env, rl, rules, named) && ConditionsExact(rl, rules, named, later.strings)
    ensures AllAgree(env, p, facts, Enabled(rules), CompileRules(rl, mode, ns, rules, st).0.value)
    decreases |rules|
  {
    hide CompileRule, Agrees, Extends, WellFormed, Fits, StateWellFormed, Represents, ConditionsMean, ConditionsExact;
    if rules != [] {
      var first := CompileRule(rl, mode, ns, rules[0], st);
      EarlierExtends(rl, mode, ns, rules, st, later);
      ConditionsOfSome(env, rl, rules, named, later.strings);
      CompiledAllAgree(env, rl, mode, ns, rules[1..], first.1, p, later, facts, named);
      CompiledAgrees(env, rl, mode, ns, rules[0], st, p, later, facts, named);
    }
  }

  lemma MirrorsKeepRanks(env: Engine.Env, p: RuleProgram, ns: int, rules: seq<Rule>)
    requires AllMirror(env, p, ns, Enabled(rules), p.rules) && Ranked(rules)
    ensures RanksKept(p, ns, Enabled(rules)) && DistinctKeys(p.rules)
  {
    EnabledRanked(rules);
  }

  /** What both give on the same facts: the engine's run, and the program's result over the rules `s` names. */
  ghost predicate RunsAlike(env: Engine.Env, mode: ExecutionMode, rules: seq<Rule>, result: Result) {
    var run := Engine.EvalRules(env, Engine.SortRules(rules), mode, Engine.NoResult);
    !run.err && run.next == "" && Same(run.result, result)
  }

  /** The engine and a scan of the compiled rules agree on matched ids, decision, Allowed and score, in every execution
      mode, for rules that do not tie and on whose conditions the two agree one by one. */
  lemma EngineAndScanAgree(env: Engine.Env, rl: RuleLib, inputMode: ExecutionMode, ns: int, rules: seq<Rule>,
                           start: State, p: RuleProgram, facts: Option<TypedFacts>)
    requires StateWellFormed(start) && Compiled(rl, ProgramMode(inputMode), ns, rules, start, Some(p))
    requires Fits(CompileRules(rl, ProgramMode(inputMode), ns, rules, start).1.t) && rl.ruleId == env.ruleId
    requires Ranked(rules) && AllPlain(rules) && AllAgree(env, p, facts, Enabled(rules), p.rules)
    ensures InRange(Get(p.byNamespace, ns), p.rules) && DistinctKeys(p.rules)
    ensures RunsAlike(env, RuleSetMode(inputMode), rules, ResultOf(p, facts, env.now, Get(p.byNamespace, ns)))
  {
    hide Fits, StateWellFormed, CompileRules, Ranked, Plain, DistinctKeys, Mirrors, Agrees;
    hide EvalList, Engine.EvalRules, StableSort.Sort, Enabled;
    var mode := ProgramMode(inputMode);
    var final := CompileRules(rl, mode, ns, rules, start).1.t;
    RulesKeepState(rl, mode, ns, rules, start);
    FinalFinished(env, rl, mode, ns, rules, start, p);
    CompiledAllMirror(env, rl, mode, ns, rules, start, p, final);
    MirrorsKeepRanks(env, p, ns, rules);
    ScanOrder(p, ns, rules);
    var s := Get(p.byNamespace, ns);
    ScanTwins(env, p, ns, facts, rules, s);
    EvalTwins(env, p, facts, RulesInOrder(Enabled(rules), s), Scan(p, ns), Engine.NoResult, NoResult);
    EnabledEval(env, Engine.SortRules(rules), mode, Engine.NoResult);
  }

  lemma FinalFinished(env: Engine.Env, rl: RuleLib, mode: ExecutionMode, ns: int, rules: seq<Rule>, start: State,
                      p: RuleProgram)
    requires StateWellFormed(start) && Compiled(rl, mode, ns, rules, start, Some(p)) && rl.ruleId == env.ruleId
    requires Fits(CompileRules(rl, mode, ns, rules, start).1.t)
    ensures Finished(env, rl, mode, p, CompileRules(rl, mode, ns, rules, start).1.t,
                     CompileRules(rl, mode, ns, rules, start).1.t)
  {
    RulesKeepState(rl, mode, ns, rules, start);
  }

  lemma ScanTwins(env: Engine.Env, p: RuleProgram, ns: int, facts: Option<TypedFacts>, rules: seq<Rule>, s: seq<int>)
    requires AllMirror(env, p, ns, Enabled(rules), p.rules) && AllAgree(env, p, facts, Enabled(rules), p.rules)
    requires AllPlain(rules) && InRange(s, p.rules)
    ensures Twins(env, p, facts, RulesInOrder(Enabled(rules), s), RulesAt(p.rules, s))
  {
    hide Plain, Mirrors, Agrees;
    EnabledMembers(rules);
    var enabled := Enabled(rules);
    forall k | 0 <= k < |s|
      ensures Plain(enabled[s[k]]) && Twin(env, p, facts, enabled[s[k]], p.rules[s[k]])
    {
      assert enabled[s[k]] in enabled;
      assert Mirrors(env, p, enabled[s[k]], p.rules[s[k]]) && Agrees(env, p, facts, enabled[s[k]], p.rules[s[k]]);
    }
  }

  /** So the engine agrees with the indexed program wherever every rule that fires passes the index, in every order of
      the buckets: rules that do not tie in the engine do not tie in the program. */
  lemma EngineAndIndexedAgree(env: Engine.Env, rl: RuleLib, inputMode: ExecutionMode, ns: int, rules: seq<Rule>,
                              start: State, p: RuleProgram, facts: Option<TypedFacts>, order: seq<IndexKey>)
    requires StateWellFormed(start) && Compiled(rl, ProgramMode(inputMode), ns, rules, start, Some(p))
    requires Fits(CompileRules(rl, ProgramMode(inputMode), ns, rules, start).1.t) && rl.ruleId == env.ruleId
    requires Ranked(rules) && AllPlain(rules) && AllAgree(env, p, facts, Enabled(rules), p.rules)
    requires VisitOrder(p, ns, order)
    ensures InRange(Get(p.byNamespace, ns), p.rules) && InRange(CandidatesBy(p, ns, facts, order), p.rules)
    ensures AllPass(facts, Fired(p, facts, env.now, Scan(p, ns))) ==>
              RunsAlike(env, RuleSetMode(inputMode), rules,
                        ResultOf(p, facts, env.now, CandidatesBy(p, ns, facts, order)))
  {
    hide RunsAlike, EvalList, Fired, AllPass, AllAgree, AllPlain, Ranked, Fits, StateWellFormed, CompileRules;
    hide TiesHarmless, DistinctKeys;
    EngineAndScanAgree(env, rl, inputMode, ns, rules, start, p, facts);
    DistinctHarmless(p, ns, facts, FiringAt(p, facts, env.now));
    FiringPassIsEnough(p, ns, facts, env.now, order);
  }

  lemma FitsEarlier(t: Tables, later: Tables)
    requires Extends(t, later) && Fits(later)
    ensures Fits(t)
  {
  }

  /** The engine and the compiled program agree on matched ids, decision, Allowed and score, in every execution mode,
      for rule sets whose rules do not tie and are read alike by both, on facts filled in at any later time. */
  lemma EngineAndProgramAgree(env: Engine.Env, rl: RuleLib, inputMode: ExecutionMode, ns: int, rules: seq<Rule>,
                              start: State, p: RuleProgram, later: Tables,
                              facts: Option<TypedFacts>, named: Option<Facts>, order: seq<IndexKey>)
    requires StateWellFormed(start) && Compiled(rl, ProgramMode(inputMode), ns, rules, start, Some(p))
    requires Later(p, CompileRules(rl, ProgramMode(inputMode), ns, rules, start).1.t, later) && rl.ruleId == env.ruleId
    requires Ranked(rules) && AllPlain(rules) && AllThroughAnd(rl, rules)
    requires Represents(facts, named, later) && VisitOrder(p, ns, order)
    requires ConditionsMean(env, rl, rules, named) && ConditionsExact(rl, rules, named, later.strings)
    ensures InRange(CandidatesBy(p, ns, facts, order), p.rules)
    ensures RunsAlike(env, RuleSetMode(inputMode), rules,
                      ResultOf(p, facts, env.now, CandidatesBy(p, ns, facts, order)))
  {
    hide Represents, ConditionsMean, ConditionsExact, AllThroughAnd, Fits, StateWellFormed, CompileRules, Ranked;
    hide AllPlain, EvalList, RunsAlike, AllAgree, Enabled, Extends, WellFormed, TiesHarmless, DistinctKeys;
    var mode := ProgramMode(inputMode);
    FitsEarlier(CompileRules(rl, mode, ns, rules, start).1.t, later);
    CompiledAllAgree(env, rl, mode, ns, rules, start, p, later, facts, named);
    EngineAndScanAgree(env, rl, inputMode, ns, rules, start, p, facts);
    DistinctHarmless(p, ns, facts, FiringAt(p, facts, env.now));
    CompiledIndexInvisible(rl, mode, ns, rules, start, p, facts, env.now, order);
  }

  /** In particular on whatever nested value the adapter is given after compiling: it fills the facts the program reads,
      and the engine's conditions read the same facts by name. */
  lemma EngineAndAdaptedAgree(env: Engine.Env, rl: RuleLib, inputMode: ExecutionMode, ns: int, rules: seq<Rule>,
                              start: State, p: RuleProgram, given: BytecodeFacts.Given, n: nat, order: seq<IndexKey>)
    requires StateWellFormed(start) && Compiled(rl, ProgramMode(inputMode), ns, rules, start, Some(p))
    requires rl.ruleId == env.ruleId && Ranked(rules) && AllPlain(rules) && AllThroughAnd(rl, rules)
    requires VisitOrder(p, ns, order)
    requires var named := Some(BytecodeFacts.Named(map[], BytecodeFacts.Walk(given, "")));
             var filled := Adapted(CompileRules(rl, ProgramMode(inputMode), ns, rules, start).1.t, given, n);
             && Fits(BytecodeFacts.TablesIn(filled, p.sets))
             && ConditionsMean(env, rl, rules, named) && ConditionsExact(rl, rules, named, filled.strings)
    ensures var filled := Adapted(CompileRules(rl, ProgramMode(inputMode), ns, rules, start).1.t, given, n);
            && InRange(CandidatesBy(p, ns, Some(filled.slots), order), p.rules)
            && RunsAlike(env, RuleSetMode(inputMode), rules,
                         ResultOf(p, Some(filled.slots), env.now, CandidatesBy(p, ns, Some(filled.slots), order)))
  {
    hide Represents, ConditionsMean, ConditionsExact, AllThroughAnd, Fits, CompileRules, Ranked, AllPlain;
    hide EvalList, RunsAlike, Extends, WellFormed;
    var t := CompileRules(rl, ProgramMode(inputMode), ns, rules, start).1.t;
    var facts := BytecodeFacts.Walk(given, "");
    var filled := Adapted(t, given, n);
    RulesKeepState(rl, ProgramMode(inputMode), ns, rules, start);
    BytecodeFacts.AdaptRepresents(t, n, facts);
    EngineAndProgramAgree(env, rl, inputMode, ns, rules, start, p, BytecodeFacts.TablesIn(filled, p.sets),
                          Some(filled.slots), Some(BytecodeFacts.Named(map[], facts)), order);
  }

  /** What the adapter leaves when it starts from these tables with `n` empty slots. */
  function Adapted(t: Tables, given: BytecodeFacts.Given, n: nat): BytecodeFacts.Filled {
    var empty := BytecodeFacts.Filled(t.fields, t.strings, seq(n, _ => Missing));
    BytecodeFacts.FillAll(empty, BytecodeFacts.Walk(given, ""))
  }

  // ---------- the limits are real ----------

  /** An unregistered action type takes its reference number, cut to 16 bits, as its type. So it acts as allow, deny or
      score exactly when it is among the first three names referenced, or among the first three after any 65,536. */
  lemma UnknownActionCollides(refs: seq<string>, name: string)
    requires Distinct(refs) && name in refs && name !in ActionTypes()
    ensures ActionTypeOf(refs, name) in {ACTION_ALLOW, ACTION_DENY, ACTION_SCORE}
            <==> IndexOf(refs, name) % FIELD_WIDTH < 3
    ensures IndexOf(refs, name) == 0 ==> ActionTypeOf(refs, name) == ACTION_ALLOW
  {
    hide ActionTypes, IndexOf;
    var i := IndexOf(refs, name);
    CutTwice(i + 1);
    NextCut(i);
    assert ActionTypeOf(refs, name) == (i + 1) % FIELD_WIDTH;
  }

  lemma NextCut(i: nat)
    ensures (i + 1) % FIELD_WIDTH == if i % FIELD_WIDTH == FIELD_WIDTH - 1 then 0 else i % FIELD_WIDTH + 1
    ensures i == 0 ==> i % FIELD_WIDTH == 0
  {
  }

  lemma CutTwice(n: nat)
    ensures n % ID_WIDTH % FIELD_WIDTH == n % FIELD_WIDTH
  {
    var q, r := n / ID_WIDTH, n % ID_WIDTH;
    assert n == FIELD_WIDTH * (FIELD_WIDTH * q) + r;
  }
}
