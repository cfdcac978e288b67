/** The workflow runner (engine.go): walk from stage to stage until a stage names no successor. */
module Workflow {
  import opened Wrappers
  import opened Rules
  import opened Engine
  import opened Folds

  /** A stage's sorted rules and the action its assignment adds, if it has one. */
  datatype Stage = Stage(rules: seq<Rule>, assign: Option<Action>)

  datatype Workflow = Workflow(start: string, stages: map<string, Stage>, mode: ExecutionMode)

  datatype Outcome = Done | LoopAt(stage: string) | MissingStage(stage: string) | EvalError

  // ---------- merging ----------

  predicate ResultAllows(r: Result) {
    EqualFold(r.decision, "allow") || r.allowed || HasAction(r.actions, "allow")
  }

  predicate ResultDenies(r: Result) {
    EqualFold(r.decision, "deny") || HasAction(r.actions, "deny")
  }

  /** `mergeResults`. */
  function Merge(a: Result, b: Result): Result {
    Result(a.matched || b.matched, a.ids + b.ids, a.score + b.score,
           if ResultDenies(b) then false else if ResultAllows(b) then true else a.allowed,
           if b.decision != "" then b.decision else a.decision, a.actions + b.actions)
  }

  // ---------- the walk ----------

  function StageRun(env: Env, wf: Workflow, stage: string): Run
    requires stage in wf.stages
  {
    EvalRules(env, wf.stages[stage].rules, wf.mode, NoResult)
  }

  /** The result after visiting a stage. */
  function Visit(env: Env, wf: Workflow, stage: string, all: Result): Result
    requires stage in wf.stages
  {
    var assign := wf.stages[stage].assign;
    Merge(if assign.Some? then all.(actions := all.actions + [assign.value]) else all, StageRun(env, wf, stage).result)
  }

  /** `evalWorkflow`. Each iteration enters a stage not seen before, so it ends within one visit per stage. */
  method EvalWorkflow(env: Env, wf: Workflow) returns (all: Result, out: Outcome)
    ensures exists path :: Walked(env, wf, path, all, out) && AddsUp(env, wf, path, all)
  {
    hide AddsUp;
    var seen: set<string> := {};
    var stage := wf.start;
    ghost var path: seq<string> := [];
    all, out := NoResult, Done;
    while stage != ""
      invariant Visits(env, wf, path) && all == Collected(env, wf, path)
      invariant seen == set s | s in path
      invariant path != [] ==> !StageRun(env, wf, path[|path| - 1]).err
      invariant stage == Successor(env, wf, path)
      decreases wf.stages.Keys - seen
    {
      if stage in seen {
        CollectedAddsUp(env, wf, path);
        assert Walked(env, wf, path, all, LoopAt(stage));
        return all, LoopAt(stage);
      }
      seen := seen + {stage};
      if stage !in wf.stages {
        CollectedAddsUp(env, wf, path);
        assert Walked(env, wf, path, all, MissingStage(stage));
        return all, MissingStage(stage);
      }
      var compiled := wf.stages[stage];
      if compiled.assign.Some? {
        all := all.(actions := all.actions + [compiled.assign.value]);
      }
      var res, next, err := EvalRulesWithNext(env, compiled.rules, wf.mode);
      all := Merge(all, res);
      VisitsStep(env, wf, path, stage);
      path := path + [stage];
      if err {
        CollectedAddsUp(env, wf, path);
        assert Walked(env, wf, path, all, EvalError);
        return all, EvalError;
      }
      stage := next;
    }
    CollectedAddsUp(env, wf, path);
    assert Walked(env, wf, path, all, Done);
  }

  /** A whole run: the stages visited until it ends, and what it returns. */
  ghost predicate Walked(env: Env, wf: Workflow, path: seq<string>, all: Result, out: Outcome) {
    && Visits(env, wf, path)
    && all == Collected(env, wf, path)
    && out == OutcomeOf(env, wf, path)
    && (out == EvalError || Final(wf, path, Successor(env, wf, path)))
  }

  /** The stage that follows a path: the start, or what the last stage's rules name. */
  function Successor(env: Env, wf: Workflow, path: seq<string>): string
    requires path != [] ==> path[|path| - 1] in wf.stages
  {
    if path == [] then wf.start else StageRun(env, wf, path[|path| - 1]).next
  }

  /** `path` is a run: known stages, all different, each entered from the one before, the first from the start. */
  ghost predicate Visits(env: Env, wf: Workflow, path: seq<string>) {
    && (path != [] ==> path[0] == wf.start)
    && (forall k :: 0 <= k < |path| ==> path[k] != "" && path[k] in wf.stages)
    && (forall i, j :: 0 <= i && i + 1 == j && j < |path| ==> Enters(env, wf, path[i], path[j]))
    && (forall i, j :: 0 <= i < j < |path| ==> path[i] != path[j])
  }

  /** `stage` is what the rules of `prev` name next. */
  ghost predicate Enters(env: Env, wf: Workflow, prev: string, stage: string) {
    prev != "" && prev in wf.stages && !StageRun(env, wf, prev).err && StageRun(env, wf, prev).next == stage
  }

  lemma VisitsStep(env: Env, wf: Workflow, path: seq<string>, stage: string)
    requires Visits(env, wf, path) && (path != [] ==> !StageRun(env, wf, path[|path| - 1]).err)
    requires stage == Successor(env, wf, path) && stage != "" && stage in wf.stages && stage !in path
    ensures Visits(env, wf, path + [stage])
    ensures Collected(env, wf, path + [stage]) == Visit(env, wf, stage, Collected(env, wf, path))
  {
    var more := path + [stage];
    assert more[..|more| - 1] == path;
    forall i, j | 0 <= i && i + 1 == j && j < |more|
      ensures Enters(env, wf, more[i], more[j])
    {
      assert more[i] == path[i];
    }
  }

  function Collected(env: Env, wf: Workflow, path: seq<string>): Result
    requires forall k :: 0 <= k < |path| ==> path[k] in wf.stages
  {
    if path == [] then NoResult else Visit(env, wf, path[|path| - 1], Collected(env, wf, path[..|path| - 1]))
  }

  /** Why a run ends. */
  ghost predicate Final(wf: Workflow, path: seq<string>, next: string) {
    next == "" || next in path || next !in wf.stages
  }

  function OutcomeOf(env: Env, wf: Workflow, path: seq<string>): Outcome
    requires path != [] ==> path[|path| - 1] in wf.stages
  {
    if path != [] && StageRun(env, wf, path[|path| - 1]).err then EvalError
    else
      var next := Successor(env, wf, path);
      if next == "" then Done
      else if next in path then LoopAt(next)
      else if next !in wf.stages then MissingStage(next)
      else Done
  }

  /** How a whole run ended, by what the last stage's rules did and named. */
  lemma EndingExactly(env: Env, wf: Workflow, path: seq<string>, all: Result, out: Outcome)
    requires Walked(env, wf, path, all, out)
    ensures out == EvalError <==> path != [] && StageRun(env, wf, path[|path| - 1]).err
    ensures out != EvalError ==>
              var next := if path == [] then wf.start else StageRun(env, wf, path[|path| - 1]).next;
              && (out == Done <==> next == "") && (out == LoopAt(next) <==> next in path)
              && (out == MissingStage(next) <==> next != "" && next !in wf.stages)
  {
  }

  // ---------- what a run adds up to ----------

  function StageResults(env: Env, wf: Workflow, path: seq<string>): seq<Result>
    requires forall k :: 0 <= k < |path| ==> path[k] in wf.stages
  {
    seq(|path|, k requires 0 <= k < |path| => StageRun(env, wf, path[k]).result)
  }

  /** A stage says a word by its decision or by one of its actions. */
  predicate SaysWord(r: Result, word: string) {
    EqualFold(r.decision, word) || exists k :: 0 <= k < |r.actions| && EqualFold(r.actions[k].kind, word)
  }

  /** A stage that allows, by its flag or a word, or denies. */
  function Deciding(): Result -> bool {
    (r: Result) => r.allowed || SaysWord(r, "allow") || SaysWord(r, "deny")
  }

  function Spoken(): Result -> bool {
    (r: Result) => r.decision != ""
  }

  function Matching(): Result -> bool {
    (r: Result) => r.matched
  }

  /** The flag is that of the last stage that decides, which allows unless it denies, and false when none does. */
  ghost predicate FlagOf(rs: seq<Result>, allowed: bool) {
    if NoneIs(rs, Deciding()) then !allowed
    else exists k :: IsLast(rs, Deciding(), k) && allowed == !SaysWord(rs[k], "deny")
  }

  ghost predicate DecisionOf(rs: seq<Result>, decision: string) {
    if NoneIs(rs, Spoken()) then decision == "" else exists k :: IsLast(rs, Spoken(), k) && decision == rs[k].decision
  }

  function IdLists(rs: seq<Result>): seq<seq<int>> {
    seq(|rs|, k requires 0 <= k < |rs| => rs[k].ids)
  }

  function Scores(rs: seq<Result>): seq<real> {
    seq(|rs|, k requires 0 <= k < |rs| => rs[k].score)
  }

  /** What each stage adds to the actions: its assignment, then the actions of its rules. */
  function ActionLists(env: Env, wf: Workflow, path: seq<string>): seq<seq<Action>>
    requires forall k :: 0 <= k < |path| ==> path[k] in wf.stages
  {
    seq(|path|, k requires 0 <= k < |path| =>
      (match wf.stages[path[k]].assign case Some(a) => [a] case None => []) + StageRun(env, wf, path[k]).result.actions)
  }

  /** The result of a run, told by the results of its stages in order. */
  ghost predicate AddsUp(env: Env, wf: Workflow, path: seq<string>, all: Result)
    requires forall k :: 0 <= k < |path| ==> path[k] in wf.stages
  {
    var rs := StageResults(env, wf, path);
    && (all.matched <==> !NoneIs(rs, Matching()))
    && all.ids == Concat(IdLists(rs)) && all.score == Sum(Scores(rs))
    && all.actions == Concat(ActionLists(env, wf, path))
    && DecisionOf(rs, all.decision) && FlagOf(rs, all.allowed)
  }

  lemma FlagNext(rs: seq<Result>, a: Result, b: Result)
    requires FlagOf(rs, a.allowed)
    ensures FlagOf(rs + [b], Merge(a, b).allowed)
  {
    assert (rs + [b])[|rs|] == b;
    if NoneIs(rs, Deciding()) {
      LastStep(rs, Deciding(), b, 0);
    } else {
      var k :| IsLast(rs, Deciding(), k) && a.allowed == !SaysWord(rs[k], "deny");
      LastStep(rs, Deciding(), b, k);
      assert (rs + [b])[k] == rs[k];
    }
  }

  lemma DecisionNext(rs: seq<Result>, a: Result, b: Result)
    requires DecisionOf(rs, a.decision)
    ensures DecisionOf(rs + [b], Merge(a, b).decision)
  {
    assert (rs + [b])[|rs|] == b;
    if NoneIs(rs, Spoken()) {
      LastStep(rs, Spoken(), b, 0);
    } else {
      var k :| IsLast(rs, Spoken(), k) && a.decision == rs[k].decision;
      LastStep(rs, Spoken(), b, k);
      assert (rs + [b])[k] == rs[k];
    }
  }

  /** The stages' results add up to what the run collects. */
  lemma {:induction false} CollectedAddsUp(env: Env, wf: Workflow, path: seq<string>)
    requires forall k :: 0 <= k < |path| ==> path[k] in wf.stages
    ensures AddsUp(env, wf, path, Collected(env, wf, path))
  {
    if path != [] {
      var front, stage := path[..|path| - 1], path[|path| - 1];
      CollectedAddsUp(env, wf, front);
      assert path == front + [stage];
      AddsUpNext(env, wf, front, stage, Collected(env, wf, front));
    }
  }

  lemma ListsNext(rs: seq<Result>, b: Result)
    ensures Concat(IdLists(rs + [b])) == Concat(IdLists(rs)) + b.ids
    ensures Sum(Scores(rs + [b])) == Sum(Scores(rs)) + b.score
    ensures NoneIs(rs + [b], Matching()) <==> NoneIs(rs, Matching()) && !b.matched
  {
    assert IdLists(rs + [b]) == IdLists(rs) + [b.ids];
    ConcatAppend(IdLists(rs), b.ids);
    assert Scores(rs + [b]) == Scores(rs) + [b.score];
    SumAppend(Scores(rs), [b.score]);
    SumOne(b.score);
    assert (rs + [b])[|rs|] == b && forall k :: 0 <= k < |rs| ==> (rs + [b])[k] == rs[k];
  }

  lemma ActionsNext(env: Env, wf: Workflow, path: seq<string>, stage: string, actions: seq<Action>)
    requires (forall k :: 0 <= k < |path| ==> path[k] in wf.stages) && stage in wf.stages
    requires actions == Concat(ActionLists(env, wf, path))
    ensures Concat(ActionLists(env, wf, path + [stage])) ==
            (if wf.stages[stage].assign.Some? then actions + [wf.stages[stage].assign.value] else actions)
            + StageRun(env, wf, stage).result.actions
  {
    hide StageRun;
    var assign, own := wf.stages[stage].assign, StageRun(env, wf, stage).result.actions;
    var more := (match assign case Some(x) => [x] case None => []) + own;
    assert ActionLists(env, wf, path + [stage]) == ActionLists(env, wf, path) + [more];
    ConcatAppend(ActionLists(env, wf, path), more);
    assert assign.Some? ==> actions + ([assign.value] + own) == actions + [assign.value] + own;
    assert assign.None? ==> more == own;
  }

  lemma AddsUpNext(env: Env, wf: Workflow, path: seq<string>, stage: string, all: Result)
    requires (forall k :: 0 <= k < |path| ==> path[k] in wf.stages) && stage in wf.stages
    requires AddsUp(env, wf, path, all)
    ensures AddsUp(env, wf, path + [stage], Visit(env, wf, stage, all))
  {
    hide FlagOf, DecisionOf, StageRun, ResultAllows, ResultDenies, IdLists, Scores, ActionLists, NoneIs;
    var rs, b := StageResults(env, wf, path), StageRun(env, wf, stage).result;
    assert StageResults(env, wf, path + [stage]) == rs + [b];
    FlagNext(rs, all, b);
    DecisionNext(rs, all, b);
    ListsNext(rs, b);
    ActionsNext(env, wf, path, stage, all.actions);
  }

  // ---------- what a loop report means ----------

  /** Following the successor function `n` times from the start, through existing stages without an error. */
  ghost predicate Reaches(env: Env, wf: Workflow, n: nat, stage: string) {
    if n == 0 then stage == wf.start
    else exists prev :: Reaches(env, wf, n - 1, prev) && Enters(env, wf, prev, stage)
  }

  lemma {:induction false} ReachesUnique(env: Env, wf: Workflow, n: nat, s: string, t: string)
    requires Reaches(env, wf, n, s) && Reaches(env, wf, n, t)
    ensures s == t
  {
    if n > 0 {
      var p :| Reaches(env, wf, n - 1, p) && Enters(env, wf, p, s);
      var q :| Reaches(env, wf, n - 1, q) && Enters(env, wf, q, t);
      ReachesUnique(env, wf, n - 1, p, q);
    }
  }

  lemma {:induction false} PathReaches(env: Env, wf: Workflow, path: seq<string>, n: nat)
    requires Visits(env, wf, path) && n <= |path|
    requires n == |path| && path != [] ==> !StageRun(env, wf, path[|path| - 1]).err
    ensures Reaches(env, wf, n, if n < |path| then path[n] else Successor(env, wf, path))
  {
    if n > 0 {
      PathReaches(env, wf, path, n - 1);
      assert Enters(env, wf, path[n - 1], if n < |path| then path[n] else Successor(env, wf, path));
    }
  }

  /** There is one run only, so the result of a workflow is determined. */
  lemma WalkUnique(env: Env, wf: Workflow, p: seq<string>, q: seq<string>, all: Result, out: Outcome, all': Result,
                   out': Outcome)
    requires Walked(env, wf, p, all, out) && Walked(env, wf, q, all', out')
    ensures p == q && all == all' && out == out'
  {
    forall k | 0 <= k < |p| && k < |q| ensures p[k] == q[k] {
      PathReaches(env, wf, p, k);
      PathReaches(env, wf, q, k);
      ReachesUnique(env, wf, k, p[k], q[k]);
    }
    if |p| < |q| {
      GoesOn(env, wf, p, q);
    } else if |q| < |p| {
      GoesOn(env, wf, q, p);
    }
  }

  /** The beginning of a longer run is not a whole one. */
  lemma GoesOn(env: Env, wf: Workflow, p: seq<string>, q: seq<string>)
    requires Visits(env, wf, p) && Visits(env, wf, q) && |p| < |q| && forall k :: 0 <= k < |p| ==> p[k] == q[k]
    ensures OutcomeOf(env, wf, p) != EvalError && !Final(wf, p, Successor(env, wf, p))
  {
    var n := |p|;
    if n > 0 {
      assert Enters(env, wf, q[n - 1], q[n]) && q[n - 1] == p[n - 1];
    }
    assert Successor(env, wf, p) == q[n];
  }

  /** Nothing is reached beyond the end of a run that did not loop. */
  lemma {:induction false} NothingBeyond(env: Env, wf: Workflow, path: seq<string>, n: nat, stage: string)
    requires Visits(env, wf, path) && n > |path|
    requires OutcomeOf(env, wf, path) == EvalError
             || (Final(wf, path, Successor(env, wf, path)) && !OutcomeOf(env, wf, path).LoopAt?)
    ensures !Reaches(env, wf, n, stage)
    decreases n
  {
    if Reaches(env, wf, n, stage) {
      var p :| Reaches(env, wf, n - 1, p) && Enters(env, wf, p, stage);
      if n - 1 > |path| {
        NothingBeyond(env, wf, path, n - 1, p);
      } else if OutcomeOf(env, wf, path) == EvalError {
        LastReached(env, wf, path, p);
      } else {
        PathReaches(env, wf, path, |path|);
        ReachesUnique(env, wf, |path|, p, Successor(env, wf, path));
      }
    }
  }

  lemma LastReached(env: Env, wf: Workflow, path: seq<string>, p: string)
    requires Visits(env, wf, path) && OutcomeOf(env, wf, path) == EvalError
    ensures !Reaches(env, wf, |path|, p)
  {
    if Reaches(env, wf, |path|, p) {
      var q :| Reaches(env, wf, |path| - 1, q) && Enters(env, wf, q, p);
      PathReaches(env, wf, path, |path| - 1);
      ReachesUnique(env, wf, |path| - 1, q, path[|path| - 1]);
    }
  }

  /** The walk is at the same stage after `i` and after `j` steps. */
  ghost predicate Repeats(env: Env, wf: Workflow, i: int, j: int, stage: string) {
    0 <= i < j && stage != "" && Reaches(env, wf, i, stage) && Reaches(env, wf, j, stage)
  }

  /** A run reports a loop exactly when following the successors from the start repeats a (non-empty) stage
      before an empty successor, a missing stage or an evaluation error ends the walk. */
  lemma LoopExactlyWhenRepeated(env: Env, wf: Workflow, path: seq<string>)
    requires Visits(env, wf, path)
    requires OutcomeOf(env, wf, path) == EvalError || Final(wf, path, Successor(env, wf, path))
    ensures OutcomeOf(env, wf, path).LoopAt? <==>
            exists i, j, stage :: Repeats(env, wf, i, j, stage)
  {
    if OutcomeOf(env, wf, path).LoopAt? {
      var stage := Successor(env, wf, path);
      var i :| 0 <= i < |path| && path[i] == stage;
      PathReaches(env, wf, path, i);
      PathReaches(env, wf, path, |path|);
      assert Repeats(env, wf, i, |path|, stage);
    } else {
      forall i, j, stage
        ensures !Repeats(env, wf, i, j, stage)
      {
        if 0 <= i < j && stage != "" && Reaches(env, wf, i, stage) {
          NoRepeat(env, wf, path, i, j, stage);
        }
      }
    }
  }

  lemma NoRepeat(env: Env, wf: Workflow, path: seq<string>, i: nat, j: nat, stage: string)
    requires Visits(env, wf, path) && i < j && stage != ""
    requires OutcomeOf(env, wf, path) == EvalError
             || (Final(wf, path, Successor(env, wf, path)) && !OutcomeOf(env, wf, path).LoopAt?)
    requires Reaches(env, wf, i, stage)
    ensures !Reaches(env, wf, j, stage)
  {
    if Reaches(env, wf, j, stage) {
      if j > |path| {
        NothingBeyond(env, wf, path, j, stage);
      } else {
        PathReaches(env, wf, path, i);
        ReachesUnique(env, wf, i, stage, path[i]);
        if j < |path| {
          PathReaches(env, wf, path, j);
          ReachesUnique(env, wf, j, stage, path[j]);
        } else if OutcomeOf(env, wf, path) == EvalError {
          LastReached(env, wf, path, stage);
        } else {
          PathReaches(env, wf, path, j);
          ReachesUnique(env, wf, j, stage, Successor(env, wf, path));
        }
      }
    }
  }
}
