/** What a program comes to (bytecode.go), told by the rules that fire and the order in which they do. */
module BytecodeResults {
  import opened Wrappers
  import opened Rules
  import opened BytecodeRegistry
  import opened BytecodeExpr
  import opened BytecodeCompiler
  import opened BytecodeVM
  import opened BytecodeIndex
  import opened BytecodeProgram
  import opened BytecodeScan
  import opened Folds
  import StableSort
  import Text

  // ---------- the order of the candidates ----------

  /** Greater priority first, then greater salience, then more conditions, then the smaller id. */
  predicate NotBehind(a: CompiledRule, b: CompiledRule) {
    && a.priority >= b.priority
    && (a.priority == b.priority ==> a.salience >= b.salience)
    && (a.priority == b.priority && a.salience == b.salience ==> a.specificity >= b.specificity)
    && (a.priority == b.priority && a.salience == b.salience && a.specificity == b.specificity ==> a.id <= b.id)
  }

  ghost predicate InOrder(s: seq<CompiledRule>) {
    forall i, j :: 0 <= i < j < |s| ==> NotBehind(s[i], s[j])
  }

  /** In every order of the buckets the candidates come in order. */
  lemma CandidatesInOrder(p: RuleProgram, ns: int, facts: Option<TypedFacts>, order: seq<IndexKey>)
    requires Valid(p) && VisitOrder(p, ns, order)
    ensures InRange(CandidatesBy(p, ns, facts, order), p.rules)
    ensures InOrder(RulesAt(p.rules, CandidatesBy(p, ns, facts, order)))
  {
    CandidatesInRange(p, ns, facts, order);
    var s, before := CandidatesBy(p, ns, facts, order), IndexBefore(p.rules);
    IndexBeforeIsOrder(p.rules);
    if facts.Some? && |GetBuckets(p.eqIndex, ns)| > 0 {
      StableSort.SortSorted(Gather(p, ns, facts, order), before);
    } else {
      assert Lists(s, p.rules, InNamespace(ns), IndexOrder(p.rules));
      assert StableSort.Sorted(s, before) by {
        forall i, j | 0 <= i < j < |s|
          ensures !before(s[j], s[i])
        {
          assert !IndexOrder(p.rules)(s[j], s[i]);
        }
      }
    }
    forall i, j | 0 <= i < j < |s|
      ensures NotBehind(p.rules[s[i]], p.rules[s[j]])
    {
      assert !before(s[j], s[i]);
    }
  }

  // ---------- which rules fire ----------

  /** Within its time, and its code accepts. */
  predicate FiresNow(p: RuleProgram, facts: Option<TypedFacts>, now: int, r: CompiledRule) {
    && (r.validFrom <= 0 || r.validFrom <= now) && (r.validUntil <= 0 || now <= r.validUntil)
    && Accepts(r.code, facts, p.sets)
  }

  /** The rules of a list that fire. */
  function FiringOf(p: RuleProgram, facts: Option<TypedFacts>, now: int, s: seq<CompiledRule>): seq<CompiledRule> {
    StableSort.Keep(s, (r: CompiledRule) => FiresNow(p, facts, now, r))
  }

  predicate Acts(r: CompiledRule, kind: int) {
    exists k :: 0 <= k < |r.actions| && r.actions[k].kind == kind
  }

  /** Whether a rule asks for a mode, or the program does. */
  predicate Asked(p: RuleProgram, r: CompiledRule, mode: ExecutionMode) {
    mode in {r.mode, p.mode}
  }

  /** Whether a firing rule is the last that is applied. */
  predicate Last(p: RuleProgram, r: CompiledRule) {
    || Asked(p, r, FirstMatch) || Asked(p, r, HighestPriority)
    || (Asked(p, r, DenyOverrides) && Acts(r, ACTION_DENY)) || (Asked(p, r, AllowOverrides) && Acts(r, ACTION_ALLOW))
  }

  /** The first `n` of the firing rules: up to and with the first that is the last to be applied, or all of them. */
  ghost predicate Applied(p: RuleProgram, firing: seq<CompiledRule>, n: nat) {
    && n <= |firing|
    && (forall k :: 0 <= k < n - 1 ==> !Last(p, firing[k]))
    && (n < |firing| ==> n > 0 && Last(p, firing[n - 1]))
  }

  /** How many of the firing rules are applied in each mode. */
  ghost predicate AppliedIn(mode: ExecutionMode, firing: seq<CompiledRule>, n: nat) {
    && n <= |firing|
    && match mode
       case FirstMatch => n == if firing == [] then 0 else 1
       case HighestPriority => n == if firing == [] then 0 else 1
       case DenyOverrides => UpTo(firing, ACTION_DENY, n)
       case AllowOverrides => UpTo(firing, ACTION_ALLOW, n)
       case AllMatches => n == |firing|
       case ScoreBased => n == |firing|
  }

  /** Up to and with the first that has such an action, or all of them. */
  ghost predicate UpTo(firing: seq<CompiledRule>, kind: int, n: nat) {
    && n <= |firing|
    && (forall k :: 0 <= k < n - 1 ==> !Acts(firing[k], kind))
    && (n < |firing| ==> n > 0 && Acts(firing[n - 1], kind))
  }

  lemma FiresIsFiresNow(p: RuleProgram, facts: Option<TypedFacts>, now: int, r: CompiledRule)
    ensures Fires(p, facts, now, r) <==> FiresNow(p, facts, now, r)
  {
  }

  /** When every rule is compiled for the program's mode, that mode decides. */
  lemma OneMode(p: RuleProgram, firing: seq<CompiledRule>, n: nat)
    requires Applied(p, firing, n) && forall r :: r in firing ==> r.mode == p.mode
    ensures AppliedIn(p.mode, firing, n)
  {
    assert forall k :: 0 <= k < |firing| ==> firing[k] in firing;
    if firing != [] && p.mode in {FirstMatch, HighestPriority} {
      assert Last(p, firing[0]);
    }
  }

  lemma LastIsStop(p: RuleProgram, r: CompiledRule)
    ensures Last(p, r) <==> StopsAfter(p, r)
  {
    ActsIsHasKind(r, ACTION_DENY);
    ActsIsHasKind(r, ACTION_ALLOW);
  }

  lemma ActsIsHasKind(r: CompiledRule, kind: int)
    ensures Acts(r, kind) <==> HasKind(r.actions, kind)
  {
  }

  // ---------- what they add up to ----------

  function Deciding(): CompiledAction -> bool {
    (a: CompiledAction) => a.kind == ACTION_ALLOW || a.kind == ACTION_DENY
  }

  function Spoken(): CompiledRule -> bool {
    (r: CompiledRule) => r.decision != 0
  }

  function ActionLists(applied: seq<CompiledRule>): seq<seq<CompiledAction>> {
    seq(|applied|, k requires 0 <= k < |applied| => applied[k].actions)
  }

  /** The score of one action. */
  function Points(a: CompiledAction): real {
    if a.kind == ACTION_SCORE then a.value as real else 0.0
  }

  function PointsOf(actions: seq<CompiledAction>): seq<real> {
    seq(|actions|, k requires 0 <= k < |actions| => Points(actions[k]))
  }

  ghost predicate FlagOf(actions: seq<CompiledAction>, allowed: bool) {
    if NoneIs(actions, Deciding()) then !allowed
    else exists k :: IsLast(actions, Deciding(), k) && allowed == (actions[k].kind == ACTION_ALLOW)
  }

  ghost predicate DecisionOf(p: RuleProgram, applied: seq<CompiledRule>, decision: string) {
    if NoneIs(applied, Spoken()) then decision == ""
    else exists k :: IsLast(applied, Spoken(), k) && decision == NameOf(p.strings, applied[k].decision)
  }

  /** The result of the rules that were applied, in order. */
  ghost predicate AddsUp(p: RuleProgram, applied: seq<CompiledRule>, res: Result) {
    var actions := Concat(ActionLists(applied));
    && (res.matched <==> applied != []) && res.ids == IdsOf(applied) && res.actions == actions
    && FlagOf(actions, res.allowed) && DecisionOf(p, applied, res.decision)
    && res.score == Sum(PointsOf(actions)) && res.scoreValue as real == res.score
  }

  lemma FlagNext(actions: seq<CompiledAction>, res: Result, a: CompiledAction)
    requires FlagOf(actions, res.allowed)
    ensures FlagOf(actions + [a], ApplyAction(res, a).allowed)
  {
    assert (actions + [a])[|actions|] == a;
    if NoneIs(actions, Deciding()) {
      LastStep(actions, Deciding(), a, 0);
    } else {
      var k :| IsLast(actions, Deciding(), k) && res.allowed == (actions[k].kind == ACTION_ALLOW);
      LastStep(actions, Deciding(), a, k);
      assert (actions + [a])[k] == actions[k];
    }
  }

  lemma {:induction false} ActionsNext(before: seq<CompiledAction>, res: Result, actions: seq<CompiledAction>)
    requires FlagOf(before, res.allowed) && res.score == Sum(PointsOf(before)) && res.scoreValue as real == res.score
    ensures var r := ApplyActions(res, actions);
            && FlagOf(before + actions, r.allowed)
            && r.score == Sum(PointsOf(before + actions)) && r.scoreValue as real == r.score
  {
    hide FlagOf;
    if actions == [] {
      assert before + actions == before;
    } else {
      var n := |actions| - 1;
      var a, r := actions[n], ApplyActions(res, actions[..n]);
      ActionsNext(before, res, actions[..n]);
      FlagNext(before + actions[..n], r, a);
      assert before + actions == before + actions[..n] + [a];
      assert PointsOf(before + actions[..n] + [a]) == PointsOf(before + actions[..n]) + [Points(a)];
      SumAppend(PointsOf(before + actions[..n]), [Points(a)]);
      SumOne(Points(a));
    }
  }

  lemma DecisionNext(p: RuleProgram, applied: seq<CompiledRule>, decision: string, r: CompiledRule)
    requires DecisionOf(p, applied, decision)
    ensures DecisionOf(p, applied + [r], Decided(p, decision, r))
  {
    assert (applied + [r])[|applied|] == r;
    if NoneIs(applied, Spoken()) {
      LastStep(applied, Spoken(), r, 0);
    } else {
      var k :| IsLast(applied, Spoken(), k) && decision == NameOf(p.strings, applied[k].decision);
      LastStep(applied, Spoken(), r, k);
      assert (applied + [r])[k] == applied[k];
    }
  }

  lemma AddsUpNext(p: RuleProgram, applied: seq<CompiledRule>, res: Result, r: CompiledRule)
    requires AddsUp(p, applied, res)
    ensures AddsUp(p, applied + [r], Apply(p, res, r))
  {
    hide FlagOf, DecisionOf, PointsOf, Apply, ApplyActions, Decided;
    ApplyParts(p, res, r);
    ActionsNext(Concat(ActionLists(applied)), res, r.actions);
    assert ActionLists(applied + [r]) == ActionLists(applied) + [r.actions];
    ConcatAppend(ActionLists(applied), r.actions);
    DecisionNext(p, applied, res.decision, r);
    assert IdsOf(applied + [r]) == IdsOf(applied) + [r.id];
  }

  // ---------- the whole evaluation ----------

  lemma {:induction false} EvalListExactly(p: RuleProgram, facts: Option<TypedFacts>, now: int, s: seq<CompiledRule>,
                                           before: seq<CompiledRule>, res: Result) returns (n: nat)
    requires AddsUp(p, before, res)
    ensures Applied(p, FiringOf(p, facts, now, s), n)
    ensures AddsUp(p, before + FiringOf(p, facts, now, s)[..n], EvalList(p, facts, now, s, res))
    decreases |s|
  {
    hide AddsUp, Apply, FiresNow, Fires;
    n := 0;
    assert before + [] == before;
    if s != [] {
      var r, rest := s[0], FiringOf(p, facts, now, s[1..]);
      FiresIsFiresNow(p, facts, now, r);
      LastIsStop(p, r);
      if !Fires(p, facts, now, r) {
        n := EvalListExactly(p, facts, now, s[1..], before, res);
        assert FiringOf(p, facts, now, s) == rest;
      } else {
        AddsUpNext(p, before, res, r);
        assert FiringOf(p, facts, now, s) == [r] + rest;
        if StopsAfter(p, r) {
          n := 1;
          assert ([r] + rest)[..1] == [r];
        } else {
          var m := EvalListExactly(p, facts, now, s[1..], before + [r], Apply(p, res, r));
          n := m + 1;
          assert ([r] + rest)[..n] == [r] + rest[..m];
          assert before + [r] + rest[..m] == before + ([r] + rest[..m]);
        }
      }
    }
  }

  /** What `Evaluate` answers, for every order of the buckets: the candidates that fire are applied in order, as many as
      the modes of program and rules say, and the result is theirs. */
  lemma EvaluatedExactly(p: RuleProgram, ns: int, facts: Option<TypedFacts>, now: int, order: seq<IndexKey>)
    returns (firing: seq<CompiledRule>, n: nat)
    requires Valid(p) && VisitOrder(p, ns, order)
    ensures InRange(CandidatesBy(p, ns, facts, order), p.rules)
    ensures firing == FiringOf(p, facts, now, RulesAt(p.rules, CandidatesBy(p, ns, facts, order)))
    ensures InOrder(firing) && Applied(p, firing, n)
    ensures AddsUp(p, firing[..n], ResultOf(p, facts, now, CandidatesBy(p, ns, facts, order)))
  {
    hide AddsUp;
    CandidatesInOrder(p, ns, facts, order);
    var s := RulesAt(p.rules, CandidatesBy(p, ns, facts, order));
    firing := FiringOf(p, facts, now, s);
    NothingAddsUp(p);
    n := EvalListExactly(p, facts, now, s, [], NoResult);
    assert [] + firing[..n] == firing[..n];
    forall i, j | 0 <= i < j < |firing|
      ensures NotBehind(firing[i], firing[j])
    {
      assert StableSort.Precedes(firing, firing[i], firing[j]);
      StableSort.KeepPrecedes(s, (r: CompiledRule) => FiresNow(p, facts, now, r), firing[i], firing[j]);
    }
  }

  lemma NothingAddsUp(p: RuleProgram)
    ensures AddsUp(p, [], NoResult)
  {
  }

  /** In the mode that takes the highest priority, the only id is that of a candidate that fires and that no candidate
      that fires is ahead of; there is none if none fires. */
  lemma HighestPriorityExactly(p: RuleProgram, ns: int, facts: Option<TypedFacts>, now: int, order: seq<IndexKey>)
    returns (winner: Option<CompiledRule>)
    requires Valid(p) && VisitOrder(p, ns, order) && p.mode == HighestPriority
    ensures InRange(CandidatesBy(p, ns, facts, order), p.rules)
    ensures var firing := FiringOf(p, facts, now, RulesAt(p.rules, CandidatesBy(p, ns, facts, order)));
            && (winner.Some? <==> firing != [])
            && (winner.Some? ==> winner.value in firing && forall r :: r in firing ==> NotBehind(winner.value, r))
    ensures ResultOf(p, facts, now, CandidatesBy(p, ns, facts, order)).ids
            == if winner.Some? then [winner.value.id] else []
  {
    hide AddsUp, FiringOf;
    var firing, n := EvaluatedExactly(p, ns, facts, now, order);
    AddsUpIds(p, firing[..n], ResultOf(p, facts, now, CandidatesBy(p, ns, facts, order)));
    winner := if firing == [] then None else Some(firing[0]);
    if firing != [] {
      assert Last(p, firing[0]);
      assert firing[..1] == [firing[0]];
      assert NotBehind(firing[0], firing[0]);
      assert forall r :: r in firing ==> r == firing[0] || r in firing[1..];
    }
  }

  lemma AddsUpIds(p: RuleProgram, applied: seq<CompiledRule>, res: Result)
    requires AddsUp(p, applied, res)
    ensures res.ids == IdsOf(applied)
  {
  }
}
