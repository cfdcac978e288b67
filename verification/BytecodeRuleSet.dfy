/** Compiling a whole rule set (bytecode.go) and what holds of every program it produces. */
module BytecodeRuleSet {
  import opened Wrappers
  import opened Rules
  import opened BytecodeRegistry
  import opened BytecodeExpr
  import opened BytecodeCompiler
  import opened BytecodeVM
  import opened BytecodeCorrect
  import opened BytecodeIndex
  import opened BytecodeProgram
  import opened BytecodeScan
  import StableSort
  import Text

  /** `ruleId` is `parseRuleID`; `conditions` gives the syntax tree of a rule's condition, if it has one. */
  datatype RuleLib = RuleLib(lib: Lib, ruleId: string -> int, conditions: nat -> Option<Expr>)

  /** The tables a rule set adds to. */
  datatype State = State(t: Tables, namespaces: seq<string>, refs: seq<string>)

  function Int32(x: int): int {
    (x + 0x8000_0000) % 0x1_0000_0000 - 0x8000_0000
  }

  /** `countSpecificity`: comparisons and `exists` calls. */
  function CountSpecificity(e: Expr): nat
    decreases e, 1
  {
    match e
    case Infix(op, l, r) =>
      if l.Path? && op != "&&" && op != "||" then 1 else CountSpecificity(l) + CountSpecificity(r)
    case Prefix(_, x) => CountSpecificity(x)
    case Call(name, args) =>
      if name.Some? && Text.Lower(name.value) == "exists" then 1 else CountArgs(args)
    case _ => 0
  }

  function CountArgs(args: seq<Expr>): nat
    decreases args, 0
  {
    if args == [] then 0 else CountSpecificity(args[0]) + CountArgs(args[1..])
  }

  /** An instruction that compares a fact or asks whether it is there. */
  predicate TestsFact(ins: Instruction) {
    ins.op in {OpEq, OpNeq, OpGt, OpGte, OpLt, OpLte, OpIn, OpNotIn} || (ins.op == OpExists && ins.field != 0)
  }

  function CountTests(code: seq<Instruction>): nat {
    if code == [] then 0 else CountTests(code[..|code| - 1]) + if TestsFact(code[|code| - 1]) then 1 else 0
  }

  lemma {:induction false} CountTestsAppend(a: seq<Instruction>, b: seq<Instruction>)
    ensures CountTests(a + b) == CountTests(a) + CountTests(b)
  {
    hide TestsFact;
    if b == [] {
      assert a + b == a;
    } else {
      CountTestsAppend(a, b[..|b| - 1]);
      assert (a + b)[..|a + b| - 1] == a + b[..|b| - 1];
    }
  }

  lemma CountOne(ins: Instruction)
    ensures CountTests([ins]) == if TestsFact(ins) then 1 else 0
  {
    assert [ins][..0] == [] && CountTests([ins][..0]) == 0;
  }

  /** A condition's specificity is the number of comparisons and `exists` calls that it compiles to. */
  lemma {:induction false} SpecificityExactly(e: Expr, t: Tables, lib: Lib)
    requires WellFormed(t) && CompileExpr(e, t, lib).0.Some? && Fits(CompileExpr(e, t, lib).1)
    ensures CountSpecificity(e) == CountTests(CompileExpr(e, t, lib).0.value)
    decreases e
  {
    hide TestsFact, CompileCompare, CompileCall, CountTests;
    match e
    case Infix(op, l, r) =>
      if op == "&&" || op == "||" {
        var left := CompileExpr(l, t, lib);
        var right := CompileExpr(r, left.1, lib);
        CompileGrows(l, t, lib);
        CompileGrows(r, left.1, lib);
        SpecificityExactly(l, t, lib);
        SpecificityExactly(r, left.1, lib);
        JoinTests(left.0.value, right.0.value, if op == "||" then OpOr else OpAnd);
      } else {
        CompareTests(op, l, r, t, lib);
      }
    case Prefix(op, x) =>
      SpecificityExactly(x, t, lib);
      var code := CompileExpr(x, t, lib).0.value;
      CountTestsAppend(code, [Op(OpNot)]);
      OtherTests();
    case Call(name, args) =>
      CallTests(name, args, t, lib);
    case Lit(v) =>
      CountOne(Constant(Truthy(v)));
      OtherTests();
    case _ =>
  }

  lemma OtherTests()
    ensures CountTests([Op(OpNot)]) == CountTests([Op(OpAnd)]) == CountTests([Op(OpOr)]) == 0
    ensures !TestsFact(Constant(true)) && !TestsFact(Constant(false))
  {
    CountOne(Op(OpNot));
    CountOne(Op(OpAnd));
    CountOne(Op(OpOr));
  }

  lemma JoinTests(a: seq<Instruction>, b: seq<Instruction>, op: OpCode)
    requires op == OpAnd || op == OpOr
    ensures CountTests(a + b + [Op(op)]) == CountTests(a) + CountTests(b)
  {
    CountTestsAppend(a + b, [Op(op)]);
    CountTestsAppend(a, b);
    OtherTests();
  }

  lemma CompareTests(op: string, l: Expr, r: Expr, t: Tables, lib: Lib)
    requires CompileCompare(op, l, r, t, lib).0.Some?
    ensures l.Path? && CountTests(CompileCompare(op, l, r, t, lib).0.value) == 1
  {
    CountOne(CompileCompare(op, l, r, t, lib).0.value[0]);
  }

  lemma CallTests(name: Option<string>, args: seq<Expr>, t: Tables, lib: Lib)
    requires WellFormed(t) && CompileCall(name, args, t, lib).0.Some? && Fits(CompileCall(name, args, t, lib).1)
    ensures CountSpecificity(Call(name, args)) == CountTests(CompileCall(name, args, t, lib).0.value)
  {
    var ins := CompileCall(name, args, t, lib).0.value[0];
    CountOne(ins);
    AddKeeps(t.fields, args[0].path);
    IdsInjective(AddField(t, args[0].path).fields, FIELD_WIDTH);
    if Text.Lower(name.value) != "exists" {
      LiteralArgs(args, lib);
    }
  }

  /** The arguments of `between` count for nothing. */
  lemma LiteralArgs(args: seq<Expr>, lib: Lib)
    requires |args| == 3 && args[0].Path? && LiteralNumber(args[1], lib).Some? && LiteralNumber(args[2], lib).Some?
    ensures CountArgs(args) == 0
  {
    var two := args[1..];
    var one := two[1..];
    assert two[0] == args[1] && one[0] == args[2] && one[1..] == [];
    assert CountArgs(one) == 0;
    assert CountArgs(two) == 0;
  }

  // ---------- actions ----------

  function AddAll(refs: seq<string>, words: seq<string>): seq<string>
    decreases |words|
  {
    if words == [] then refs else AddAll(Add(refs, words[0]), words[1..])
  }

  function DecisionActions(decision: string): seq<CompiledAction> {
    if decision == "allow" then [CompiledAction(ACTION_ALLOW, 0)]
    else if decision == "deny" then [CompiledAction(ACTION_DENY, 0)]
    else []
  }

  function ScoreActions(score: real): seq<CompiledAction> {
    if score != 0.0 then [CompiledAction(ACTION_SCORE, Trunc(score))] else []
  }

  /** The actions a rule's decision and score stand for. */
  function ImpliedActions(rule: Rule): seq<CompiledAction> {
    DecisionActions(rule.decision) + ScoreActions(rule.score)
  }

  function CompileOwnActions(actions: seq<Action>, refs: seq<string>): (seq<CompiledAction>, seq<string>) {
    if actions == [] then ([], refs)
    else
      var a := actions[0];
      var refs' := AddAction(refs, a.kind);
      var rest := CompileOwnActions(actions[1..], AddAll(refs', a.words));
      ([CompiledAction(ActionTypeOf(refs', a.kind), a.value)] + rest.0, rest.1)
  }

  // ---------- rules ----------

  /** `compileBytecodeRule`; nothing when the condition is not supported. */
  function CompileRule(rl: RuleLib, mode: ExecutionMode, defaultNS: int, rule: Rule, st: State)
    : (Option<CompiledRule>, State)
  {
    var namespaces := if rule.namespace != "" then Add(st.namespaces, rule.namespace) else st.namespaces;
    var ns := if rule.namespace != "" then Id(namespaces, rule.namespace, ID_WIDTH) else defaultNS;
    var cond := rl.conditions(rule.condition);
    var compiled := if cond.Some? then CompileExpr(cond.value, st.t, rl.lib) else (Some([Constant(true)]), st.t);
    if compiled.0.None? then (None, State(compiled.1, namespaces, st.refs))
    else
      var index := if cond.Some? then FirstIndex(cond.value, compiled.1, rl.lib) else (None, compiled.1);
      var actions := CompileOwnActions(rule.actions, st.refs);
      var t := if rule.decision != "" then index.1.(strings := Add(index.1.strings, rule.decision)) else index.1;
      (Some(CompiledRule(rl.ruleId(rule.id), ns, Int32(rule.priority), Int32(rule.salience),
                         if cond.Some? then CountSpecificity(cond.value) else 0, rule.validFrom, rule.validUntil,
                         compiled.0.value, ImpliedActions(rule) + actions.0,
                         if rule.decision != "" then StringId(t.strings, rule.decision) else 0, mode, index.0)),
       State(t, namespaces, actions.1))
  }

  /** The rule loop of `CompileRuleSet`: every rule is compiled, the enabled ones are kept. */
  function CompileRules(rl: RuleLib, mode: ExecutionMode, ns: int, rules: seq<Rule>, st: State)
    : (Option<seq<CompiledRule>>, State)
    decreases |rules|
  {
    if rules == [] then (Some([]), st)
    else
      var first := CompileRule(rl, mode, ns, rules[0], st);
      if first.0.None? then (None, first.1)
      else
        var rest := CompileRules(rl, mode, ns, rules[1..], first.1);
        if rest.0.None? then rest
        else if rules[0].disabled then rest else (Some([first.0.value] + rest.0.value), rest.1)
  }

  /** What a compiled rule keeps of its rule, whatever the rule holds: its own namespace or the rule set's, its ranks in
      32 bits, its times, its decision by name, and the actions its decision and score imply before its own. */
  lemma RuleExactly(rl: RuleLib, mode: ExecutionMode, ns: int, rule: Rule, st: State)
    requires CompileRule(rl, mode, ns, rule, st).0.Some? && WellFormed(st.t) && Distinct(st.namespaces)
    requires Fits(CompileRule(rl, mode, ns, rule, st).1.t) && |st.namespaces| < ID_WIDTH - 1
    ensures var (cr, after) := CompileRule(rl, mode, ns, rule, st);
            && cr.value.id == rl.ruleId(rule.id)
            && cr.value.validFrom == rule.validFrom && cr.value.validUntil == rule.validUntil
            && (rule.namespace == "" ==> cr.value.namespace == ns && after.namespaces == st.namespaces)
            && (rule.namespace != "" ==> NameOf(after.namespaces, cr.value.namespace) == rule.namespace)
            && (rule.decision == "" ==> cr.value.decision == 0)
            && (rule.decision != "" ==> NameOf(after.t.strings, cr.value.decision) == rule.decision)
            && cr.value.actions == ImpliedActions(rule) + CompileOwnActions(rule.actions, st.refs).0
            && Wrapped(rule.priority, cr.value.priority) && Wrapped(rule.salience, cr.value.salience)
  {
    hide CompileExpr, FirstIndex, CountSpecificity, ImpliedActions, CompileOwnActions;
    Wraps(rule.priority);
    Wraps(rule.salience);
    var cond := rl.conditions(rule.condition);
    if cond.Some? {
      CompileGrows(cond.value, st.t, rl.lib);
      FirstIndexGrows(cond.value, CompileExpr(cond.value, st.t, rl.lib).1, rl.lib);
    }
    if rule.namespace != "" {
      AddKeeps(st.namespaces, rule.namespace);
      NameOfId(Add(st.namespaces, rule.namespace), rule.namespace, ID_WIDTH);
    }
    if rule.decision != "" {
      var strings := (if cond.Some? then FirstIndex(cond.value, CompileExpr(cond.value, st.t, rl.lib).1, rl.lib).1
                      else st.t).strings;
      AddKeeps(strings, rule.decision);
      NameOfId(Add(strings, rule.decision), rule.decision, ID_WIDTH);
    }
  }

  /** `y` is `x` as a signed number of 32 bits. */
  predicate Wrapped(x: int, y: int) {
    -0x8000_0000 <= y < 0x8000_0000 && (x - y) % 0x1_0000_0000 == 0
  }

  lemma Wraps(x: int)
    ensures Wrapped(x, Int32(x))
  {
  }

  /** So is a compiled rule's, its code being that of its condition. */
  lemma RuleSpecificity(rl: RuleLib, mode: ExecutionMode, ns: int, rule: Rule, st: State)
    requires WellFormed(st.t) && CompileRule(rl, mode, ns, rule, st).0.Some?
    requires Fits(CompileRule(rl, mode, ns, rule, st).1.t)
    ensures var cr := CompileRule(rl, mode, ns, rule, st).0.value;
            cr.specificity == CountTests(cr.code)
  {
    var cond := rl.conditions(rule.condition);
    if cond.Some? {
      var u := CompileExpr(cond.value, st.t, rl.lib).1;
      CompileGrows(cond.value, st.t, rl.lib);
      FirstIndexGrows(cond.value, u, rl.lib);
      if rule.decision != "" {
        AddKeeps(FirstIndex(cond.value, u, rl.lib).1.strings, rule.decision);
      }
      SpecificityExactly(cond.value, st.t, rl.lib);
    } else {
      CountOne(Constant(true));
      OtherTests();
    }
  }

  // ---------- the code ----------

  ghost function StateOf(registry: Registry, p: Program): State
    reads registry, p
  {
    State(TablesOf(registry, p), registry.nsNames, registry.actionVals)
  }

  method FirstEqualityIndex(e: Expr, registry: Registry, p: Program, lib: Lib) returns (key: Option<IndexKey>)
    requires registry.Valid()
    modifies registry`fields, registry`fieldNames, registry`strings, registry`stringVals
    ensures registry.Valid()
    ensures key == FirstIndex(e, old(TablesOf(registry, p)), lib).0
    ensures TablesOf(registry, p) == FirstIndex(e, old(TablesOf(registry, p)), lib).1
    decreases e
  {
    match e {
      case Infix(op, l, r) =>
        if op == "&&" || op == "||" {
          key := FirstEqualityIndex(l, registry, p, lib);
          if key.Some? {
            return;
          }
          key := FirstEqualityIndex(r, registry, p, lib);
          return;
        }
        if op != "==" || !l.Path? || !r.Lit? {
          return None;
        }
        var kind, raw, f := CompileLiteral(registry, r.value, lib);
        if kind == ValueMissing {
          return None;
        }
        var field := registry.Field(l.path);
        key := Some(IndexKey(field, kind, raw, f));
      case _ =>
        key := None;
    }
  }

  method RegisterWords(registry: Registry, words: seq<string>)
    requires registry.Valid()
    modifies registry`actionRefs, registry`actionVals
    ensures registry.Valid() && registry.actionVals == AddAll(old(registry.actionVals), words)
  {
    for i := 0 to |words|
      invariant registry.Valid()
      invariant AddAll(registry.actionVals, words[i..]) == AddAll(old(registry.actionVals), words)
    {
      assert words[i..][0] == words[i] && words[i..][1..] == words[i + 1..];
      var ref := registry.ActionRef(words[i]);
    }
  }

  method CompileActionList(registry: Registry, list: seq<Action>) returns (actions: seq<CompiledAction>)
    requires registry.Valid()
    modifies registry`actionRefs, registry`actionVals
    ensures registry.Valid()
    ensures actions == CompileOwnActions(list, old(registry.actionVals)).0
    ensures registry.actionVals == CompileOwnActions(list, old(registry.actionVals)).1
  {
    hide ActionTypeOf, AddAction, AddAll;
    actions := [];
    for i := 0 to |list|
      invariant registry.Valid()
      invariant actions + CompileOwnActions(list[i..], registry.actionVals).0
                == CompileOwnActions(list, old(registry.actionVals)).0
      invariant CompileOwnActions(list[i..], registry.actionVals).1
                == CompileOwnActions(list, old(registry.actionVals)).1
    {
      var a := list[i];
      assert list[i..][0] == a && list[i..][1..] == list[i + 1..];
      ghost var refs := registry.actionVals;
      var kind := registry.ActionType(a.kind);
      RegisterWords(registry, a.words);
      assert CompileOwnActions(list[i..], refs).0
             == [CompiledAction(kind, a.value)] + CompileOwnActions(list[i + 1..], registry.actionVals).0;
      actions := actions + [CompiledAction(kind, a.value)];
    }
  }

  /** `compileActions`. */
  method CompileActions(registry: Registry, rule: Rule) returns (actions: seq<CompiledAction>)
    requires registry.Valid()
    modifies registry`actionRefs, registry`actionVals
    ensures registry.Valid()
    ensures actions == ImpliedActions(rule) + CompileOwnActions(rule.actions, old(registry.actionVals)).0
    ensures registry.actionVals == CompileOwnActions(rule.actions, old(registry.actionVals)).1
  {
    actions := [];
    if rule.decision == "allow" {
      actions := actions + [CompiledAction(ACTION_ALLOW, 0)];
    } else if rule.decision == "deny" {
      actions := actions + [CompiledAction(ACTION_DENY, 0)];
    }
    if rule.score != 0.0 {
      actions := actions + [CompiledAction(ACTION_SCORE, Trunc(rule.score))];
    }
    var own := CompileActionList(registry, rule.actions);
    actions := actions + own;
  }

  method CompileBytecodeRule(rl: RuleLib, mode: ExecutionMode, defaultNS: int, rule: Rule, registry: Registry,
                             p: Program)
    returns (cr: Option<CompiledRule>)
    requires registry.Valid()
    modifies registry, p
    ensures registry.Valid()
    ensures cr == CompileRule(rl, mode, defaultNS, rule, old(StateOf(registry, p))).0
    ensures StateOf(registry, p) == CompileRule(rl, mode, defaultNS, rule, old(StateOf(registry, p))).1
  {
    hide CompileExpr, CountSpecificity, FirstIndex, IndexOf, StateWellFormed;
    var ns := defaultNS;
    if rule.namespace != "" {
      ns := registry.Namespace(rule.namespace);
    }
    var code, specificity, index := [Op(OpExists)], 0, None;
    var cond := rl.conditions(rule.condition);
    if cond.Some? {
      var ins := CompileBytecodeExpr(cond.value, registry, p, rl.lib);
      if ins.None? {
        return None;
      }
      code := ins.value;
      specificity := CountSpecificity(cond.value);
      index := FirstEqualityIndex(cond.value, registry, p, rl.lib);
    }
    var actions := CompileActions(registry, rule);
    var decision := 0;
    if rule.decision != "" {
      decision := registry.Intern(rule.decision);
    }
    cr := Some(CompiledRule(rl.ruleId(rule.id), ns, Int32(rule.priority), Int32(rule.salience), specificity,
                            rule.validFrom, rule.validUntil, code, actions, decision, mode, index));
  }

  /** The compile options leave the mode at `AllMatches` unless the rule set names another. */
  function ProgramMode(input: ExecutionMode): ExecutionMode {
    RuleSetMode(input)
  }

  /** `whole` is what `rest` becomes once the rules already compiled are put in front. */
  ghost predicate Continues(whole: (Option<seq<CompiledRule>>, State), crs: seq<CompiledRule>,
                            rest: (Option<seq<CompiledRule>>, State)) {
    && whole.1 == rest.1
    && (whole.0.None? <==> rest.0.None?)
    && (whole.0.Some? ==> whole.0.value == crs + rest.0.value)
  }

  lemma ContinuesStep(whole: (Option<seq<CompiledRule>>, State), crs: seq<CompiledRule>,
                      rl: RuleLib, mode: ExecutionMode, ns: int, rules: seq<Rule>, st: State)
    requires rules != [] && Continues(whole, crs, CompileRules(rl, mode, ns, rules, st))
    ensures var first := CompileRule(rl, mode, ns, rules[0], st);
            && (first.0.None? ==> whole.0.None? && whole.1 == first.1)
            && (first.0.Some? ==> Continues(whole, if rules[0].disabled then crs else crs + [first.0.value],
                                            CompileRules(rl, mode, ns, rules[1..], first.1)))
  {
  }

  /** The rule loop of `CompileRuleSet`. */
  method CompileAll(rl: RuleLib, mode: ExecutionMode, ns: int, rules: seq<Rule>, registry: Registry, p: Program)
    returns (out: Option<seq<CompiledRule>>)
    requires registry.Valid()
    modifies registry, p
    ensures registry.Valid()
    ensures out == CompileRules(rl, mode, ns, rules, old(StateOf(registry, p))).0
    ensures StateOf(registry, p) == CompileRules(rl, mode, ns, rules, old(StateOf(registry, p))).1
  {
    hide CompileRule;
    ghost var st := StateOf(registry, p);
    ghost var whole := CompileRules(rl, mode, ns, rules, st);
    var crs: seq<CompiledRule> := [];
    for i := 0 to |rules|
      invariant registry.Valid() && st == StateOf(registry, p)
      invariant Continues(whole, crs, CompileRules(rl, mode, ns, rules[i..], st))
    {
      ghost var rest := rules[i..];
      assert rest[0] == rules[i] && rest[1..] == rules[i + 1..];
      ContinuesStep(whole, crs, rl, mode, ns, rest, st);
      var cr := CompileBytecodeRule(rl, mode, ns, rules[i], registry, p);
      st := CompileRule(rl, mode, ns, rules[i], st).1;
      if cr.None? {
        return None;
      }
      if rules[i].disabled {
        continue;
      }
      crs := crs + [cr.value];
    }
    assert rules[|rules|..] == [];
    assert crs + [] == crs;
    out := Some(crs);
  }

  method CompileRuleSet(rl: RuleLib, inputMode: ExecutionMode, name: string, rules: seq<Rule>, registry: Registry,
                        p: Program)
    returns (out: Option<RuleProgram>, ns: int)
    requires registry.Valid()
    modifies registry, p
    ensures registry.Valid()
    ensures ns == Id(Add(old(registry.nsNames), name), name, ID_WIDTH)
    ensures var start := old(StateOf(registry, p)).(namespaces := Add(old(registry.nsNames), name));
            Compiled(rl, ProgramMode(inputMode), ns, rules, start, out) &&
            StateOf(registry, p) == CompileRules(rl, ProgramMode(inputMode), ns, rules, start).1
  {
    var mode := AllMatches;
    if inputMode != FirstMatch {
      mode := inputMode;
    }
    ns := registry.Namespace(name);
    var crs := CompileAll(rl, mode, ns, rules, registry, p);
    if crs.None? {
      return None, ns;
    }
    var byNamespace, defaults, eqIndex := BuildIndex(crs.value);
    out := Some(RuleProgram(crs.value, byNamespace, defaults, eqIndex, p.sets, registry.stringVals, mode));
  }

  /** `out` is the indexed program of the compiled rules, or nothing if one of them is not supported. */
  ghost predicate Compiled(rl: RuleLib, mode: ExecutionMode, ns: int, rules: seq<Rule>, start: State,
                           out: Option<RuleProgram>) {
    var compiled := CompileRules(rl, mode, ns, rules, start);
    && (out.None? <==> compiled.0.None?)
    && (out.Some? ==>
          && Valid(out.value) && out.value.rules == compiled.0.value && out.value.mode == mode
          && out.value.sets == compiled.1.t.sets && out.value.strings == compiled.1.t.strings)
  }

  // ---------- what holds of every compiled program ----------

  ghost predicate StateWellFormed(st: State) {
    WellFormed(st.t) && SetsSorted(st.t.sets)
  }

  lemma {:induction false} FirstIndexGrows(e: Expr, t: Tables, lib: Lib)
    requires WellFormed(t)
    ensures WellFormed(FirstIndex(e, t, lib).1) && FirstIndex(e, t, lib).1.sets == t.sets
    ensures Extends(t, FirstIndex(e, t, lib).1)
  {
    match e
    case Infix(op, l, r) =>
      if op == "&&" || op == "||" {
        FirstIndexGrows(l, t, lib);
        FirstIndexGrows(r, FirstIndex(l, t, lib).1, lib);
      } else if l.Path? && r.Lit? {
        AddKeeps(t.fields, l.path);
        if r.value.LString? {
          AddKeeps(t.strings, r.value.s);
        }
      }
    case _ =>
  }

  lemma RuleKeepsState(rl: RuleLib, mode: ExecutionMode, ns: int, rule: Rule, st: State)
    requires StateWellFormed(st)
    ensures StateWellFormed(CompileRule(rl, mode, ns, rule, st).1)
    ensures Extends(st.t, CompileRule(rl, mode, ns, rule, st).1.t)
  {
    var cond := rl.conditions(rule.condition);
    if cond.Some? {
      CompileGrows(cond.value, st.t, rl.lib);
      CompileSorted(cond.value, st.t, rl.lib);
      FirstIndexGrows(cond.value, CompileExpr(cond.value, st.t, rl.lib).1, rl.lib);
    }
  }

  lemma {:induction false} RulesKeepState(rl: RuleLib, mode: ExecutionMode, ns: int, rules: seq<Rule>, st: State)
    requires StateWellFormed(st)
    ensures StateWellFormed(CompileRules(rl, mode, ns, rules, st).1)
    ensures Extends(st.t, CompileRules(rl, mode, ns, rules, st).1.t)
    decreases |rules|
  {
    if rules != [] {
      RuleKeepsState(rl, mode, ns, rules[0], st);
      RulesKeepState(rl, mode, ns, rules[1..], CompileRule(rl, mode, ns, rules[0], st).1);
    }
  }

  /** No set id of compiled code is negative. */
  lemma {:induction false} CompileSetIds(e: Expr, t: Tables, lib: Lib)
    requires CompileExpr(e, t, lib).0.Some?
    ensures forall k :: 0 <= k < |CompileExpr(e, t, lib).0.value| ==> 0 <= CompileExpr(e, t, lib).0.value[k].setId
  {
    match e
    case Infix(op, l, r) =>
      if op == "&&" || op == "||" {
        CompileSetIds(l, t, lib);
        CompileSetIds(r, CompileExpr(l, t, lib).1, lib);
      }
    case Prefix(_, x) => CompileSetIds(x, t, lib);
    case _ =>
  }

  /** The equality each condition is indexed by is not below an `||`. */
  ghost predicate AllThroughAnd(rl: RuleLib, rules: seq<Rule>) {
    forall r :: r in rules && rl.conditions(r.condition).Some? ==> ThroughAnd(rl.conditions(r.condition).value)
  }

  /** On any facts, compiled code runs without underflow, and if the index is not below an `||` its key is implied. */
  lemma RuleSound(rl: RuleLib, mode: ExecutionMode, ns: int, rule: Rule, st: State, facts: Option<TypedFacts>,
                  sets: seq<CompiledSet>)
    requires StateWellFormed(st) && CompileRule(rl, mode, ns, rule, st).0.Some?
    ensures var cr := CompileRule(rl, mode, ns, rule, st).0.value;
            && Exec(cr.code, facts, sets, 0, []).Some?
            && (forall k :: 0 <= k < |cr.code| ==> 0 <= cr.code[k].setId)
            && (AllThroughAnd(rl, [rule]) && Accepts(cr.code, facts, sets) ==> Passes(facts, cr))
  {
    var cond := rl.conditions(rule.condition);
    var cr := CompileRule(rl, mode, ns, rule, st).0.value;
    if cond.Some? {
      var e := cond.value;
      var u := CompileExpr(e, st.t, rl.lib).1;
      var b := AlwaysPushes(e, st.t, rl.lib, facts, sets);
      PushedRuns(cr.code, facts, sets, b);
      CompileSetIds(e, st.t, rl.lib);
      FirstIndexAfterCompile(e, st.t, u, rl.lib);
      assert rule in [rule];
      if HasIndex(e) && ThroughAnd(e) && Accepts(cr.code, facts, sets) {
        IndexSound(e, st.t, u, rl.lib, facts, sets);
      }
    } else {
      PushesOne(Constant(true), facts, sets, true);
      PushedRuns(cr.code, facts, sets, true);
    }
  }

  lemma PushedRuns(code: seq<Instruction>, facts: Option<TypedFacts>, sets: seq<CompiledSet>, b: bool)
    requires Pushes(code, facts, sets, b)
    ensures Exec(code, facts, sets, 0, []).Some?
  {
    ExecIsRun(code, facts, sets, 0, []);
    assert code[0..] == code;
    var none: seq<bool> := [];
    assert Run(code, facts, sets, none) == Some(none + [b]);
  }

  lemma {:induction false} RulesSound(rl: RuleLib, mode: ExecutionMode, ns: int, rules: seq<Rule>, st: State,
                                      p: RuleProgram, facts: Option<TypedFacts>)
    requires StateWellFormed(st) && CompileRules(rl, mode, ns, rules, st).0.Some?
    ensures forall cr :: cr in CompileRules(rl, mode, ns, rules, st).0.value ==>
                           Runs(p, facts, cr) && (AllThroughAnd(rl, rules) && Accepts(cr.code, facts, p.sets) ==>
                                                  Passes(facts, cr))
    decreases |rules|
  {
    if rules != [] {
      var first := CompileRule(rl, mode, ns, rules[0], st);
      RuleKeepsState(rl, mode, ns, rules[0], st);
      RuleSound(rl, mode, ns, rules[0], st, facts, p.sets);
      RulesSound(rl, mode, ns, rules[1..], first.1, p, facts);
      if AllThroughAnd(rl, rules) {
        assert forall r :: r in [rules[0]] || r in rules[1..] ==> r in rules;
      }
    }
  }

  /** Every rule of a compiled program has its mode and, while no id has wrapped, the specificity of its code. */
  lemma {:induction false} RulesExactly(rl: RuleLib, mode: ExecutionMode, ns: int, rules: seq<Rule>, st: State)
    requires StateWellFormed(st) && CompileRules(rl, mode, ns, rules, st).0.Some?
    requires Fits(CompileRules(rl, mode, ns, rules, st).1.t)
    ensures forall cr :: cr in CompileRules(rl, mode, ns, rules, st).0.value ==>
                           cr.mode == mode && cr.specificity == CountTests(cr.code)
    decreases |rules|
  {
    if rules != [] {
      var first := CompileRule(rl, mode, ns, rules[0], st);
      RuleMode(rl, mode, ns, rules[0], st);
      RuleKeepsState(rl, mode, ns, rules[0], st);
      hide CompileRule, CountTests;
      RulesKeepState(rl, mode, ns, rules[1..], first.1);
      RuleSpecificity(rl, mode, ns, rules[0], st);
      RulesExactly(rl, mode, ns, rules[1..], first.1);
    }
  }

  lemma RuleMode(rl: RuleLib, mode: ExecutionMode, ns: int, rule: Rule, st: State)
    requires CompileRule(rl, mode, ns, rule, st).0.Some?
    ensures CompileRule(rl, mode, ns, rule, st).0.value.mode == mode
  {
  }

  /** Every program the compiler produces can be evaluated on any facts, and if no condition's indexed equality lies
      below an `||` and no two rules that fire tie harmfully, its equality index is invisible in every mode and every
      order of the buckets. */
  lemma CompiledIndexInvisible(rl: RuleLib, mode: ExecutionMode, ns: int, rules: seq<Rule>, start: State,
                               p: RuleProgram, facts: Option<TypedFacts>, now: int, order: seq<IndexKey>)
    requires StateWellFormed(start) && Compiled(rl, mode, ns, rules, start, Some(p)) && VisitOrder(p, ns, order)
    ensures SetsSorted(p.sets) && forall k :: 0 <= k < |p.rules| ==> Runs(p, facts, p.rules[k])
    ensures InRange(Get(p.byNamespace, ns), p.rules) && InRange(CandidatesBy(p, ns, facts, order), p.rules)
    ensures AllThroughAnd(rl, rules) && TiesHarmless(p, ns, facts, FiringAt(p, facts, now)) ==>
              LikeScan(p, ns, facts, now, order)
  {
    RulesKeepState(rl, mode, ns, rules, start);
    RulesSound(rl, mode, ns, rules, start, p, facts);
    CandidatesInRange(p, ns, facts, order);
    if AllThroughAnd(rl, rules) && TiesHarmless(p, ns, facts, FiringAt(p, facts, now)) {
      IndexInvisible(p, ns, facts, now, order);
    }
  }
}
