/** The equality index of bytecode.go: which comparison a rule is filed under, and when that is safe. */
module BytecodeIndex {
  import opened Wrappers
  import opened BytecodeRegistry
  import opened BytecodeExpr
  import opened BytecodeCompiler
  import opened BytecodeVM
  import opened BytecodeCorrect

  /** `fa` is A read as a float, as in `Instruction`. */
  datatype IndexKey = IndexKey(field: int, kind: ValueKind, a: int, fa: real)

  /** `firstEqualityIndex`, which also looks below `||`. */
  function FirstIndex(e: Expr, t: Tables, lib: Lib): (Option<IndexKey>, Tables) {
    match e
    case Infix(op, l, r) =>
      if op == "&&" || op == "||" then
        var left := FirstIndex(l, t, lib);
        if left.0.Some? then left else FirstIndex(r, left.1, lib)
      else if op != "==" || !l.Path? || !r.Lit? then (None, t)
      else
        var t1 := t.(strings := LiteralStrings(t.strings, r.value));
        if r.value.LNull? then (None, t1)
        else
          var t2 := AddField(t1, l.path);
          (Some(IndexKey(FieldId(t2, l.path), KindOf(r.value), RawOf(r.value, t1.strings, lib), FloatOf(r.value))), t2)
    case _ => (None, t)
  }

  /** `typedFactEqualsKey`. */
  predicate KeyHolds(facts: Option<TypedFacts>, key: IndexKey) {
    At(facts, key.field) != Missing && EvalCompare(KeyInstruction(key), facts)
  }

  function KeyInstruction(key: IndexKey): Instruction {
    OnField(OpEq, key.field).(kind := key.kind, a := key.a, fa := key.fa)
  }

  /** Whether the index finds an equality at all. */
  predicate HasIndex(e: Expr) {
    match e
    case Infix(op, l, r) =>
      if op == "&&" || op == "||" then HasIndex(l) || HasIndex(r)
      else op == "==" && l.Path? && r.Lit? && !r.value.LNull?
    case _ => false
  }

  /** The equality the index finds is not below an `||`. */
  predicate ThroughAnd(e: Expr) {
    match e
    case Infix(op, l, r) =>
      if op == "&&" then (if HasIndex(l) then ThroughAnd(l) else ThroughAnd(r))
      else if op == "||" then !HasIndex(e)
      else true
    case _ => true
  }

  /** After the expression itself has been compiled, looking for its index registers nothing new. */
  lemma {:induction false} FirstIndexAfterCompile(e: Expr, t: Tables, u: Tables, lib: Lib)
    requires WellFormed(t) && CompileExpr(e, t, lib).0.Some? && Extends(CompileExpr(e, t, lib).1, u)
    ensures FirstIndex(e, u, lib).1 == u
    ensures FirstIndex(e, u, lib).0.Some? <==> HasIndex(e)
  {
    match e
    case Infix(op, l, r) =>
      if op == "&&" || op == "||" {
        var left := CompileExpr(l, t, lib);
        CompileGrows(l, t, lib);
        CompileGrows(r, left.1, lib);
        ExtendsTransitive(left.1, CompileExpr(r, left.1, lib).1, u);
        FirstIndexAfterCompile(l, t, u, lib);
        FirstIndexAfterCompile(r, left.1, u, lib);
      } else if op == "==" && r.Lit? {
        assert l.path in AddField(t, l.path).fields;
        assert r.value.LString? ==> r.value.s in LiteralStrings(t.strings, r.value);
      }
    case _ =>
  }

  /** Code that pushes one value accepts exactly when it pushes true. */
  lemma AcceptsPushed(code: seq<Instruction>, facts: Option<TypedFacts>, sets: seq<CompiledSet>, b: bool)
    requires Pushes(code, facts, sets, b)
    ensures Accepts(code, facts, sets) == b
  {
    ExecIsRun(code, facts, sets, 0, []);
    assert code[0..] == code;
    var none: seq<bool> := [];
    assert Run(code, facts, sets, none) == Some(none + [b]);
  }

  /** Compiled code pushes exactly one value on any facts, whether or not they represent anything. */
  lemma {:induction false} AlwaysPushes(e: Expr, t: Tables, lib: Lib, facts: Option<TypedFacts>, sets: seq<CompiledSet>)
    returns (b: bool)
    requires CompileExpr(e, t, lib).0.Some?
    ensures Pushes(CompileExpr(e, t, lib).0.value, facts, sets, b)
    ensures b == Accepts(CompileExpr(e, t, lib).0.value, facts, sets)
    decreases e
  {
    var code := CompileExpr(e, t, lib).0.value;
    match e {
      case Infix(op, l, r) =>
        if op == "&&" || op == "||" {
          var left := CompileExpr(l, t, lib);
          var x := AlwaysPushes(l, t, lib, facts, sets);
          var y := AlwaysPushes(r, left.1, lib, facts, sets);
          b := if op == "&&" then x && y else x || y;
          var join := if op == "||" then OpOr else OpAnd;
          PushesBoth(left.0.value, CompileExpr(r, left.1, lib).0.value, join, facts, sets, x, y);
        } else {
          b := SinglePushes(code, facts, sets);
        }
      case Prefix(op, x) =>
        var v := AlwaysPushes(x, t, lib, facts, sets);
        b := !v;
        PushesNot(CompileExpr(x, t, lib).0.value, facts, sets, v);
      case Call(_, _) =>
        b := SinglePushes(code, facts, sets);
      case Lit(_) =>
        b := SinglePushes(code, facts, sets);
    }
    AcceptsPushed(code, facts, sets, b);
  }

  lemma SinglePushes(code: seq<Instruction>, facts: Option<TypedFacts>, sets: seq<CompiledSet>)
    returns (b: bool)
    requires |code| == 1
    requires code[0].op !in {OpAnd, OpOr, OpNot, OpJumpIfFalse, OpJumpIfTrue}
    ensures Pushes(code, facts, sets, b)
  {
    var none: seq<bool> := [];
    b := Step(code[0], facts, sets, none).value[0];
    PushesOne(code[0], facts, sets, b);
    assert code == [code[0]];
  }

  /** What the condition comes to when the equality it is filed under fails: the code on the way to that equality is
      taken as it is, the equality itself as false. */
  predicate Otherwise(e: Expr, t: Tables, lib: Lib, facts: Option<TypedFacts>, sets: seq<CompiledSet>)
    requires CompileExpr(e, t, lib).0.Some?
    decreases e
  {
    match e
    case Infix(op, l, r) =>
      (op == "&&" || op == "||") &&
      var left := CompileExpr(l, t, lib);
      var right := CompileExpr(r, left.1, lib);
      var x := if HasIndex(l) then Otherwise(l, t, lib, facts, sets) else Accepts(left.0.value, facts, sets);
      var y := if HasIndex(l) then Accepts(right.0.value, facts, sets) else Otherwise(r, left.1, lib, facts, sets);
      if op == "&&" then x && y else x || y
    case _ => false
  }

  /** On facts for which the key a rule is filed under fails, the rule accepts exactly when the rest of its condition
      holds without that equality. */
  lemma {:induction false} WithoutKey(e: Expr, t: Tables, u: Tables, lib: Lib, facts: Option<TypedFacts>,
                                      sets: seq<CompiledSet>)
    requires WellFormed(t) && CompileExpr(e, t, lib).0.Some? && Extends(CompileExpr(e, t, lib).1, u)
    requires HasIndex(e)
    ensures FirstIndex(e, u, lib).0.Some?
    ensures !KeyHolds(facts, FirstIndex(e, u, lib).0.value) ==>
              (Accepts(CompileExpr(e, t, lib).0.value, facts, sets) <==> Otherwise(e, t, lib, facts, sets))
  {
    FirstIndexAfterCompile(e, t, u, lib);
    var op, l, r := e.op, e.left, e.right;
    if op == "&&" || op == "||" {
      var left := CompileExpr(l, t, lib);
      var right := CompileExpr(r, left.1, lib);
      CompileGrows(l, t, lib);
      CompileGrows(r, left.1, lib);
      ExtendsTransitive(left.1, right.1, u);
      var x := AlwaysPushes(l, t, lib, facts, sets);
      var y := AlwaysPushes(r, left.1, lib, facts, sets);
      var b, join := if op == "&&" then x && y else x || y, if op == "||" then OpOr else OpAnd;
      PushesBoth(left.0.value, right.0.value, join, facts, sets, x, y);
      AcceptsPushed(left.0.value + right.0.value + [Op(join)], facts, sets, b);
      FirstIndexAfterCompile(l, t, u, lib);
      if HasIndex(l) {
        WithoutKey(l, t, u, lib, facts, sets);
      } else {
        WithoutKey(r, left.1, u, lib, facts, sets);
      }
    } else {
      EqualityIsKey(l.path, r.value, t, u, lib, facts, sets);
    }
  }

  /** A missing fact fails every equality with a value. */
  lemma KeyIsComparison(facts: Option<TypedFacts>, key: IndexKey)
    requires key.kind != ValueMissing
    ensures KeyHolds(facts, key) <==> EvalCompare(KeyInstruction(key), facts)
  {
  }

  /** The indexed comparison compiles to the test of its key. */
  lemma EqualityCompiles(path: string, lit: Literal, t: Tables, u: Tables, lib: Lib)
    requires WellFormed(t) && !lit.LNull?
    requires Extends(AddField(t, path).(strings := LiteralStrings(t.strings, lit)), u)
    ensures var e := Infix("==", Path(path), Lit(lit));
            && FirstIndex(e, u, lib).0.Some? && FirstIndex(e, u, lib).0.value.kind != ValueMissing
            && CompileExpr(e, t, lib).0 == Some([KeyInstruction(FirstIndex(e, u, lib).0.value)])
  {
    hide IndexOf;
    var t1 := AddField(t, path).(strings := LiteralStrings(t.strings, lit));
    IdStable(t1.fields, u.fields, path, FIELD_WIDTH);
    if lit.LString? {
      IdStable(t1.strings, u.strings, lit.s, ID_WIDTH);
    }
    assert AddField(u, path) == u && LiteralStrings(u.strings, lit) == u.strings;
  }

  /** So it accepts exactly the facts for which its key holds. */
  lemma EqualityIsKey(path: string, lit: Literal, t: Tables, u: Tables, lib: Lib, facts: Option<TypedFacts>,
                      sets: seq<CompiledSet>)
    requires WellFormed(t) && !lit.LNull?
    requires Extends(AddField(t, path).(strings := LiteralStrings(t.strings, lit)), u)
    ensures FirstIndex(Infix("==", Path(path), Lit(lit)), u, lib).0.Some?
    ensures Accepts(CompileExpr(Infix("==", Path(path), Lit(lit)), t, lib).0.value, facts, sets)
            <==> KeyHolds(facts, FirstIndex(Infix("==", Path(path), Lit(lit)), u, lib).0.value)
  {
    hide EvalCompare, KeyHolds, FirstIndex, CompileExpr, Extends;
    EqualityCompiles(path, lit, t, u, lib);
    var key := FirstIndex(Infix("==", Path(path), Lit(lit)), u, lib).0.value;
    var ins := KeyInstruction(key);
    KeyIsComparison(facts, key);
    PushesOne(ins, facts, sets, EvalCompare(ins, facts));
    AcceptsPushed([ins], facts, sets, EvalCompare(ins, facts));
  }

  /** For any nesting of `&&` and `||`, filing the rule under its key is safe for given facts if and only if the rest of
      the condition does not hold without the key. */
  lemma IndexSafeExactly(e: Expr, t: Tables, u: Tables, lib: Lib, facts: Option<TypedFacts>, sets: seq<CompiledSet>)
    requires WellFormed(t) && CompileExpr(e, t, lib).0.Some? && Extends(CompileExpr(e, t, lib).1, u)
    requires HasIndex(e)
    ensures FirstIndex(e, u, lib).0.Some?
    ensures var key := FirstIndex(e, u, lib).0.value;
            (Accepts(CompileExpr(e, t, lib).0.value, facts, sets) ==> KeyHolds(facts, key))
            <==> (Otherwise(e, t, lib, facts, sets) ==> KeyHolds(facts, key))
  {
    WithoutKey(e, t, u, lib, facts, sets);
  }

  /** An equality that is not below an `||` is needed: nothing holds without it. */
  lemma {:induction false} NeededThroughAnd(e: Expr, t: Tables, lib: Lib, facts: Option<TypedFacts>,
                                            sets: seq<CompiledSet>)
    requires CompileExpr(e, t, lib).0.Some? && ThroughAnd(e) && HasIndex(e)
    ensures !Otherwise(e, t, lib, facts, sets)
  {
    if e.op == "&&" {
      if HasIndex(e.left) {
        NeededThroughAnd(e.left, t, lib, facts, sets);
      } else {
        NeededThroughAnd(e.right, CompileExpr(e.left, t, lib).1, lib, facts, sets);
      }
    }
  }

  /** An equality reached only through `&&` is implied by the condition: on any facts that the rule accepts,
      the key it is filed under holds. */
  lemma IndexSound(e: Expr, t: Tables, u: Tables, lib: Lib, facts: Option<TypedFacts>, sets: seq<CompiledSet>)
    requires WellFormed(t) && CompileExpr(e, t, lib).0.Some? && Extends(CompileExpr(e, t, lib).1, u)
    requires ThroughAnd(e) && HasIndex(e)
    requires Accepts(CompileExpr(e, t, lib).0.value, facts, sets)
    ensures FirstIndex(e, u, lib).0.Some? && KeyHolds(facts, FirstIndex(e, u, lib).0.value)
  {
    IndexSafeExactly(e, t, u, lib, facts, sets);
    NeededThroughAnd(e, t, lib, facts, sets);
  }

  /** `a == 1 || b == 2`, and facts in which only `b` is there. */
  const EITHER := Infix("||", Infix("==", Path("a"), Lit(LInt(1))), Infix("==", Path("b"), Lit(LInt(2))))
  const ONLY_B: Option<TypedFacts> := Some([Missing, Missing, VInt(2)])

  const KEY_OF_A := IndexKey(1, ValueInt, 1, 0.0)
  const KEY_OF_B := IndexKey(2, ValueInt, 2, 0.0)

  /** `path == n`. */
  function Is(path: string, n: int): Expr {
    Infix("==", Path(path), Lit(LInt(n)))
  }

  lemma SideCompiled(path: string, n: int, t: Tables, lib: Lib)
    ensures var t1 := AddField(t, path);
            var key := IndexKey(FieldId(t1, path), ValueInt, n, 0.0);
            && CompileExpr(Is(path, n), t, lib) == (Some([KeyInstruction(key)]), t1)
            && FirstIndex(Is(path, n), t, lib) == (Some(key), t1)
  {
  }

  lemma EitherCompiled(lib: Lib)
    ensures var compiled := CompileExpr(EITHER, Tables([], [], []), lib);
            && compiled.1 == Tables(["a", "b"], [], [])
            && compiled.0 == Some([KeyInstruction(KEY_OF_A), KeyInstruction(KEY_OF_B), Op(OpOr)])
    ensures CompileExpr(EITHER.left, Tables([], [], []), lib).0 == Some([KeyInstruction(KEY_OF_A)])
    ensures CompileExpr(EITHER.right, Tables(["a"], [], []), lib).0 == Some([KeyInstruction(KEY_OF_B)])
    ensures FirstIndex(EITHER, Tables(["a", "b"], [], []), lib).0 == Some(KEY_OF_A)
  {
    hide KeyInstruction;
    var none, a, b := Tables([], [], []), Tables(["a"], [], []), Tables(["a", "b"], [], []);
    assert Add([], "a") == ["a"] && Add(["a"], "b") == ["a", "b"];
    assert ["a"][0] == "a" && ["a", "b"][0] == "a" && ["a", "b"][1] == "b";
    assert FieldId(a, "a") == 1 && FieldId(b, "a") == 1 && FieldId(b, "b") == 2;
    SideCompiled("a", 1, none, lib);
    SideCompiled("b", 2, a, lib);
    SideCompiled("a", 1, b, lib);
    assert EITHER.left == Is("a", 1) && EITHER.right == Is("b", 2);
    var x, y := KeyInstruction(KEY_OF_A), KeyInstruction(KEY_OF_B);
    assert [x] + [y] + [Op(OpOr)] == [x, y, Op(OpOr)];
  }

  /** The unsafe case exists: the rule accepts these facts and the key it is filed under fails. */
  lemma OrIndexUnsafe(lib: Lib)
    ensures var compiled := CompileExpr(EITHER, Tables([], [], []), lib);
            && compiled.0.Some? && Accepts(compiled.0.value, ONLY_B, [])
            && FirstIndex(EITHER, compiled.1, lib).0 == Some(KEY_OF_A) && !KeyHolds(ONLY_B, KEY_OF_A)
  {
    hide CompileExpr, FirstIndex;
    EitherCompiled(lib);
    var x, y := KeyInstruction(KEY_OF_A), KeyInstruction(KEY_OF_B);
    PushesOne(x, ONLY_B, [], false);
    PushesOne(y, ONLY_B, [], true);
    PushesBoth([x], [y], OpOr, ONLY_B, [], false, true);
    AcceptsPushed([x] + [y] + [Op(OpOr)], ONLY_B, [], true);
    assert [x] + [y] + [Op(OpOr)] == [x, y, Op(OpOr)];
  }
}
