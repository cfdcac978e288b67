/** What the bytecode compiler (bytecode.go) accepts, told by the parts of a condition, and what it makes of actions. */
module BytecodeForms {
  import opened Wrappers
  import opened Rules
  import opened BytecodeRegistry
  import opened BytecodeExpr
  import opened BytecodeCompiler
  import opened BytecodeProgram
  import opened BytecodeRuleSet
  import StableSort
  import Text

  // ---------- which conditions compile ----------

  /** What is left of a condition when its and, or and not are taken apart. */
  function Parts(e: Expr): seq<Expr> {
    match e
    case Infix(op, l, r) => if op in {"&&", "||"} then Parts(l) + Parts(r) else [e]
    case Prefix(op, x) => if op == "!" then Parts(x) else [e]
    case _ => [e]
  }

  /** A number, or a string that reads as one. */
  predicate IsNumber(e: Expr, lib: Lib) {
    match e
    case Lit(LInt(_)) => true
    case Lit(LFloat(_)) => true
    case Lit(LString(s)) => lib.parseFloat(s).Some?
    case _ => false
  }

  predicate AllLiterals(items: seq<Expr>) {
    forall k :: 0 <= k < |items| ==> items[k].Lit?
  }

  /** A literal, a comparison of a path with one, a test of a path against a list of them, `exists` of a path, or
      `between` of a path and two numbers. */
  predicate Supported(e: Expr, lib: Lib) {
    match e
    case Lit(_) => true
    case Infix(op, Path(_), Lit(_)) => op in {"==", "!=", "<", "<=", ">", ">="}
    case Infix(op, Path(_), ArrayLit(items)) => op in {"in", "not in"} && AllLiterals(items)
    case Call(Some(name), args) =>
      || (Text.Lower(name) == "exists" && |args| == 1 && args[0].Path?)
      || (Text.Lower(name) == "between" && |args| == 3 && args[0].Path?
          && IsNumber(args[1], lib) && IsNumber(args[2], lib))
    case _ => false
  }

  ghost predicate AllSupported(es: seq<Expr>, lib: Lib) {
    forall k :: 0 <= k < |es| ==> Supported(es[k], lib)
  }

  /** A condition compiles, whatever was compiled before it, if and only if all its parts are supported. */
  lemma {:induction false} CompilesExactly(e: Expr, t: Tables, lib: Lib)
    ensures CompileExpr(e, t, lib).0.Some? <==> AllSupported(Parts(e), lib)
  {
    hide Supported;
    match e
    case Infix(op, l, r) =>
      if op == "&&" || op == "||" {
        CompilesExactly(l, t, lib);
        CompilesExactly(r, CompileExpr(l, t, lib).1, lib);
        BothSupported(Parts(l), Parts(r), lib);
      } else {
        ComparisonCompiles(op, l, r, t, lib);
        assert Parts(e) == [e];
        OneSupported(e, lib);
      }
    case Prefix(op, x) =>
      if op == "!" {
        CompilesExactly(x, t, lib);
      } else {
        PartCompiles(e, t, lib);
        OneSupported(e, lib);
      }
    case _ =>
      PartCompiles(e, t, lib);
      OneSupported(e, lib);
  }

  lemma OneSupported(e: Expr, lib: Lib)
    ensures AllSupported([e], lib) <==> Supported(e, lib)
  {
    hide Supported;
    assert [e][0] == e;
  }

  lemma BothSupported(a: seq<Expr>, b: seq<Expr>, lib: Lib)
    ensures AllSupported(a + b, lib) <==> AllSupported(a, lib) && AllSupported(b, lib)
  {
    hide Supported;
    if AllSupported(a + b, lib) {
      assert forall k :: 0 <= k < |a| ==> (a + b)[k] == a[k];
      assert forall k :: 0 <= k < |b| ==> (a + b)[|a| + k] == b[k];
    }
  }

  lemma ComparisonCompiles(op: string, l: Expr, r: Expr, t: Tables, lib: Lib)
    ensures CompileCompare(op, l, r, t, lib).0.Some? <==> Supported(Infix(op, l, r), lib)
  {
  }

  lemma PartCompiles(e: Expr, t: Tables, lib: Lib)
    requires !e.Infix? && (e.Prefix? ==> e.op != "!")
    ensures Parts(e) == [e] && (CompileExpr(e, t, lib).0.Some? <==> Supported(e, lib))
  {
  }

  /** A rule set compiles if and only if the condition of every rule does, of disabled ones too. */
  lemma {:induction false} RulesCompileExactly(rl: RuleLib, mode: ExecutionMode, ns: int, rules: seq<Rule>, st: State)
    ensures CompileRules(rl, mode, ns, rules, st).0.Some? <==> forall k :: 0 <= k < |rules| ==> Compiles(rl, rules[k])
    decreases |rules|
  {
    hide CompileRule;
    if rules != [] {
      var first := CompileRule(rl, mode, ns, rules[0], st);
      RuleCompiles(rl, mode, ns, rules[0], st);
      RulesCompileExactly(rl, mode, ns, rules[1..], first.1);
      assert forall k :: 0 <= k < |rules[1..]| ==> rules[1..][k] == rules[k + 1];
    }
  }

  ghost predicate Compiles(rl: RuleLib, rule: Rule) {
    var cond := rl.conditions(rule.condition);
    cond.Some? ==> AllSupported(Parts(cond.value), rl.lib)
  }

  lemma RuleCompiles(rl: RuleLib, mode: ExecutionMode, ns: int, rule: Rule, st: State)
    ensures CompileRule(rl, mode, ns, rule, st).0.Some? <==> Compiles(rl, rule)
  {
    var cond := rl.conditions(rule.condition);
    if cond.Some? {
      CompilesExactly(cond.value, st.t, rl.lib);
    }
  }

  // ---------- what actions compile to ----------

  /** The score as a whole number, what is behind the point cut off. */
  predicate CutOff(score: real, value: int) {
    if score >= 0.0 then value as real <= score < (value + 1) as real else (value - 1) as real < score <= value as real
  }

  /** The types of the actions the library knows. */
  predicate Known(kind: string, number: int) {
    || (kind == "allow" && number == 1) || (kind == "deny" && number == 2) || (kind == "score" && number == 3)
  }

  /** A decision to allow or deny comes first as an action of its own, then a score that is not zero. */
  lemma ImpliedExactly(rule: Rule) returns (first: nat)
    ensures first == if rule.decision in {"allow", "deny"} then 1 else 0
    ensures var implied := ImpliedActions(rule);
            && |implied| == first + (if rule.score != 0.0 then 1 else 0)
            && (first == 1 ==> Known(rule.decision, implied[0].kind) && implied[0].value == 0)
            && (rule.score != 0.0 ==> implied[first].kind == 3 && CutOff(rule.score, implied[first].value))
  {
    first := if rule.decision in {"allow", "deny"} then 1 else 0;
  }

  /** Each action of a rule compiles to one with its number, of its own type if that is known. */
  lemma {:induction false} OwnExactly(actions: seq<Action>, refs: seq<string>)
    ensures var own := CompileOwnActions(actions, refs).0;
            && |own| == |actions|
            && forall k :: 0 <= k < |own| ==>
                             && own[k].value == actions[k].value
                             && (actions[k].kind in {"allow", "deny", "score"} ==> Known(actions[k].kind, own[k].kind))
    decreases |actions|
  {
    if actions != [] {
      var refs' := AddAction(refs, actions[0].kind);
      OwnExactly(actions[1..], AddAll(refs', actions[0].words));
    }
  }
}
