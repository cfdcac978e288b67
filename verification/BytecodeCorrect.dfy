/** Compiled code computes what the expression means, for every expression the compiler accepts. */
module BytecodeCorrect {
  import opened Wrappers
  import opened BytecodeRegistry
  import opened BytecodeExpr
  import opened BytecodeCompiler
  import opened BytecodeVM
  import StableSort
  import Text

  // ---------- typed facts represent named facts ----------

  ghost predicate Encodes(tv: TypedValue, v: Option<FactValue>, strings: seq<string>) {
    match v
    case None => tv == Missing
    case Some(FNil) => tv == Missing
    case Some(FInt(x)) => tv == VInt(x)
    case Some(FFloat(x)) => tv == VFloat(x)
    case Some(FString(s)) => s in strings && tv == VString(StringId(strings, s))
    case Some(FBool(b)) => tv == VBool(b)
    case Some(FTime(x, _, _)) => tv == VTime(x)
  }

  /** The slot of every registered field holds that field's fact. */
  ghost predicate Represents(facts: Option<TypedFacts>, env: Option<Facts>, t: Tables) {
    forall name :: name in t.fields ==> Encodes(At(facts, FieldId(t, name)), Lookup(env, name), t.strings)
  }

  function Encode(v: Option<FactValue>, strings: seq<string>): TypedValue
    requires forall s :: v == Some(FString(s)) ==> s in strings
  {
    match v
    case None => Missing
    case Some(FNil) => Missing
    case Some(FInt(x)) => VInt(x)
    case Some(FFloat(x)) => VFloat(x)
    case Some(FString(s)) => VString(StringId(strings, s))
    case Some(FBool(b)) => VBool(b)
    case Some(FTime(x, _, _)) => VTime(x)
  }

  // ---------- comparisons ----------

  /** An int fact against a float literal: the literal is truncated, which is visible only when the fact is
      the truncated value and the operator separates it from the literal. */
  predicate ExactTruncation(op: string, x: int, f: real) {
    || Trunc(f) as real == f
    || x != Trunc(f)
    || (if f > 0.0 then op == ">" || op == "<=" else op == ">=" || op == "<")
  }

  /** Strings compare by id. Equality is right unless both are written as the same number; an ordering is right when the
      ids are in the order of the values, or, for equal numbers, on the side on which the operator lets them be. */
  predicate ExactStrings(op: string, a: string, b: string, strings: seq<string>, lib: Lib) {
    var n, m := lib.parseFloat(a), lib.parseFloat(b);
    var numbers := n.Some? && m.Some?;
    || a == b
    || (if op == "==" || op == "!=" then !(numbers && n.value == m.value)
        else
          && a in strings && b in strings
          && if numbers && n.value == m.value then
               StringId(strings, a) > StringId(strings, b) <==> op == "<" || op == ">="
             else
               (if numbers then n.value < m.value else Text.Less(a, b))
                   <==> StringId(strings, a) < StringId(strings, b))
  }

  /** Booleans are ordered false before true by the machine, and not at all by the meaning. */
  predicate ExactBools(op: string, x: bool, y: bool) {
    match op
    case "<" => y ==> x
    case "<=" => x && !y
    case ">" => x ==> y
    case ">=" => !x && y
    case _ => true
  }

  /** An absent fact: the machine takes `!= null` for the test of absence. */
  predicate ExactMissing(op: string, lit: Literal) {
    op != "!=" && !(op == "==" && lit.LNull?)
  }

  /** Values of unlike kinds, which no operator accepts: right unless they are unequal under `!=`, or are numbers in
      the relation asked for. */
  predicate ExactUnlike(op: string, n: Option<real>, m: Option<real>) {
    if n.Some? && m.Some? then !Relation(op, CmpReal(n.value, m.value)) else op != "!="
  }

  /** A time is compared with the raw operand of any literal: 0 for null and false, 1 for true, the bits of a float, the
      id of a string. It equals none of them, so the operand must not be the time; it is ordered with strings alone, by
      its text, so the operand must lie where the string lies, and elsewhere must not stand in the order asked for. */
  predicate ExactTime(op: string, x: int, text: string, operand: int, lit: Literal) {
    match op
    case "<" => if lit.LString? then x < operand <==> Text.Less(text, lit.s) else operand <= x
    case ">=" => if lit.LString? then x < operand <==> Text.Less(text, lit.s) else x < operand
    case ">" => if lit.LString? then x <= operand <==> Text.Less(text, lit.s) || text == lit.s else x <= operand
    case "<=" => if lit.LString? then x <= operand <==> Text.Less(text, lit.s) || text == lit.s else operand < x
    case _ => x != operand
  }

  /** A comparison that is right for this fact and literal. */
  predicate ExactCompare(op: string, v: Option<FactValue>, lit: Literal, strings: seq<string>, lib: Lib) {
    match (v, lit)
    case (None, _) => ExactMissing(op, lit)
    case (Some(FInt(x)), LInt(_)) => true
    case (Some(FInt(x)), LFloat(f)) => ExactTruncation(op, x, f)
    case (Some(FFloat(_)), LInt(_)) => true
    case (Some(FFloat(_)), LFloat(_)) => true
    case (Some(FString(a)), LString(b)) => ExactStrings(op, a, b, strings, lib)
    case (Some(FBool(x)), LBool(y)) => ExactBools(op, x, y)
    case (Some(FTime(x, text, _)), _) => (lit.LString? && lit.s !in strings)
                                         || ExactTime(op, x, text, RawOf(lit, strings, lib), lit)
    case (Some(f), _) => ExactUnlike(op, Number(f, lib), LitNumber(lit, lib))
  }

  /** The literals of the fact's own kind, which are all that a set test looks at. */
  predicate Listed(v: Option<FactValue>, values: seq<Literal>) {
    match v
    case Some(FInt(x)) => LInt(x) in values
    case Some(FFloat(x)) => LFloat(x) in values
    case Some(FString(x)) => LString(x) in values
    case Some(FBool(x)) => LBool(x) in values
    case _ => false
  }

  /** A set test that is right for this fact: a literal of another kind equals the fact only if one of its own does. */
  predicate ExactIn(v: Option<FactValue>, values: seq<Literal>, lib: Lib) {
    forall k :: 0 <= k < |values| && Equal(v, values[k], lib) ==> Listed(v, values)
  }

  /** The machine finds no string between anything, and a time where its seconds are; the evaluator takes either by
      its text. */
  predicate ExactBetween(v: Option<FactValue>, min: Literal, max: Literal, lib: Lib) {
    var lo, hi := Compared(Argument(v), min, lib), Compared(Argument(v), max, lib);
    var outside := lo.None? || hi.None? || lo.value < 0 || hi.value > 0;
    match v
    case Some(FString(_)) => outside
    case Some(FTime(x, _, _)) =>
      LitNumber(min, lib).Some? && LitNumber(max, lib).Some? ==>
        (outside <==> x as real < LitNumber(min, lib).value || LitNumber(max, lib).value < x as real)
    case _ => true
  }

  /** The fact must be a string, for the evaluator, and name something that is there. */
  predicate ExactExists(v: Option<FactValue>, lib: Lib) {
    match Argument(v)
    case Some(FString(s)) => lib.found(s)
    case _ => false
  }

  lemma TruncBounds(f: real)
    ensures f > 0.0 ==> 0.0 <= f - Trunc(f) as real < 1.0
    ensures f <= 0.0 ==> -1.0 < f - Trunc(f) as real <= 0.0
  {
  }

  lemma TruncationExact(op: string, x: int, f: real)
    requires IsRelation(op)
    ensures Relation(op, CmpInt(x, Trunc(f))) == Relation(op, CmpReal(x as real, f)) <==> ExactTruncation(op, x, f)
  {
    TruncBounds(f);
    var t := Trunc(f);
    if x < t {
      assert x as real <= t as real - 1.0;
    } else if x > t {
      assert x as real >= t as real + 1.0;
    }
  }

  lemma StringsExact(op: string, a: string, b: string, strings: seq<string>, lib: Lib)
    requires IsRelation(op) && Distinct(strings) && |strings| < ID_WIDTH && a in strings && b in strings
    ensures Relation(op, CmpInt(StringId(strings, a), StringId(strings, b)))
            == CompareMeaning(op, Some(FString(a)), LString(b), lib)
            <==> ExactStrings(op, a, b, strings, lib)
  {
    IdsInjective(strings, ID_WIDTH);
    Text.LessTotal(a, b);
    Text.LessIrreflexive(a);
  }

  /** A compiled comparison agrees with its meaning if and only if it is exact for the fact and the literal. */
  lemma CompareCorrect(op: string, ins: Instruction, facts: Option<TypedFacts>, v: Option<FactValue>, lit: Literal,
                       strings: seq<string>, lib: Lib)
    requires IsRelation(op) && CompareOp(op) == Some(ins.op) && v != Some(FNil)
    requires Distinct(strings) && |strings| < ID_WIDTH && (lit.LString? ==> lit.s in strings)
    requires ins.kind == KindOf(lit) && ins.a == RawOf(lit, strings, lib) && ins.fa == FloatOf(lit)
    requires Encodes(At(facts, ins.field), v, strings)
    ensures EvalCompare(ins, facts) == CompareMeaning(op, v, lit, lib) <==> ExactCompare(op, v, lit, strings, lib)
  {
    EvalCompareIsRelation(op, ins, facts);
    match (v, lit)
    case (Some(FInt(x)), LFloat(f)) => TruncationExact(op, x, f);
    case (Some(FString(a)), LString(b)) => StringsExact(op, a, b, strings, lib);
    case _ =>
  }

  lemma EvalCompareIsRelation(op: string, ins: Instruction, facts: Option<TypedFacts>)
    requires IsRelation(op) && CompareOp(op) == Some(ins.op)
    ensures At(facts, ins.field) != Missing ==>
              EvalCompare(ins, facts) ==
              (CompareTyped(ins, At(facts, ins.field)).Some?
               && Relation(op, CompareTyped(ins, At(facts, ins.field)).value))
    ensures At(facts, ins.field) == Missing ==> EvalCompare(ins, facts) == (op == "!=" && ins.kind == ValueMissing)
  {
  }

  // ---------- the deviations are real ----------

  const NOTHING_PARSES := Lib(_ => 0, _ => None, _ => false)

  /** `x == 2.5` accepts x = 2. */
  lemma TruncationDeviates()
    ensures !ExactCompare("==", Some(FInt(2)), LFloat(2.5), [], NOTHING_PARSES)
    ensures EvalCompare(OnField(OpEq, 1).(kind := ValueFloat, fa := 2.5), Some([Missing, VInt(2)]))
    ensures !CompareMeaning("==", Some(FInt(2)), LFloat(2.5), NOTHING_PARSES)
  {
    assert (2.5).Floor == 2;
  }

  /** `x < "b"` rejects x = "a" when "b" was interned first. */
  lemma StringOrderDeviates()
    ensures !ExactStrings("<", "a", "b", ["b", "a"], NOTHING_PARSES)
    ensures StringId(["b", "a"], "b") == 1 && StringId(["b", "a"], "a") == 2
    ensures !EvalCompare(OnField(OpLt, 1).(kind := ValueString, a := 1), Some([Missing, VString(2)]))
    ensures CompareMeaning("<", Some(FString("a")), LString("b"), NOTHING_PARSES)
  {
    assert ["b", "a"][1] == "a";
    IndexOfAt(["b", "a"], 1);
    IndexOfAt(["b", "a"], 0);
  }

  /** `x == null` rejects an absent x and `x != null` accepts it, and rejects x = 5. */
  lemma NullDeviates(lib: Lib)
    ensures !EvalCompare(OnField(OpEq, 1), Some([Missing, Missing])) && CompareMeaning("==", None, LNull, lib)
    ensures EvalCompare(OnField(OpNeq, 1), Some([Missing, Missing])) && !CompareMeaning("!=", None, LNull, lib)
    ensures !EvalCompare(OnField(OpNeq, 1), Some([Missing, VInt(5)])) && CompareMeaning("!=", Some(FInt(5)), LNull, lib)
    ensures KindOf(LNull) == OnField(OpEq, 1).kind
  {
  }

  /** `x != "a"` rejects x = 5, and `x == "5"` too, though `equal` reads the string as a number. */
  lemma UnlikeDeviates(lib: Lib)
    requires lib.parseFloat("a") == None && lib.parseFloat("5") == Some(5.0)
    ensures !EvalCompare(OnField(OpNeq, 1).(kind := ValueString, a := 1), Some([Missing, VInt(5)]))
    ensures CompareMeaning("!=", Some(FInt(5)), LString("a"), lib)
    ensures !EvalCompare(OnField(OpEq, 1).(kind := ValueString, a := 2), Some([Missing, VInt(5)]))
    ensures CompareMeaning("==", Some(FInt(5)), LString("5"), lib)
  {
  }

  /** A time of zero satisfies `t == null`, and a time of five satisfies `t == 5` and `between(t, 1, 9)`. */
  lemma TimeDeviates(shown: string, stamp: string, lib: Lib)
    requires lib.parseFloat(stamp) == None
    ensures EvalCompare(OnField(OpEq, 1), Some([Missing, VTime(0)]))
            && !CompareMeaning("==", Some(FTime(0, shown, stamp)), LNull, lib)
    ensures EvalCompare(OnField(OpEq, 1).(kind := ValueInt, a := 5), Some([Missing, VTime(5)]))
            && !CompareMeaning("==", Some(FTime(5, shown, stamp)), LInt(5), lib)
    ensures EvalBetween(OnField(OpBetween, 1).(fa := 1.0, fb := 9.0), Some([Missing, VTime(5)]))
            && !BetweenMeaning(Some(FTime(5, shown, stamp)), LInt(1), LInt(9), lib)
  {
  }

  /** `exists(a)` accepts a = 5, on which the evaluator reports an error, and a = "b" whether or not there is a `b`;
      `exists("a")`, which looks `a` up, does not compile. */
  lemma ExistsDeviates(t: Tables, lib: Lib)
    requires !lib.found("b")
    ensures Step(OnField(OpExists, 1), Some([Missing, VInt(5)]), [], []) == Some([true])
            && ExistsMeaning(Some(FInt(5)), lib) == None
    ensures Step(OnField(OpExists, 1), Some([Missing, VString(1)]), [], []) == Some([true])
            && ExistsMeaning(Some(FString("b")), lib) == Some(false)
    ensures CompileCall(Some("exists"), [Lit(LString("a"))], t, lib).0.None?
  {
    LowerNames();
    var none: seq<bool> := [];
    assert none + [true] == [true];
  }

  /** `x in [2.0]` rejects x = 2. */
  lemma InDeviates(lib: Lib)
    ensures !Listed(Some(FInt(2)), [LFloat(2.0)]) && InMeaning(Some(FInt(2)), [LFloat(2.0)], lib)
    ensures !ExactIn(Some(FInt(2)), [LFloat(2.0)], lib)
  {
    assert Equal(Some(FInt(2)), [LFloat(2.0)][0], lib);
  }

  // ---------- constant sets ----------

  /** The parts of a collected set hold exactly the literals of their kind. */
  lemma {:induction false} CollectSetMembers(values: seq<Literal>, strings: seq<string>, set_: CompiledSet)
    ensures var r := CollectSet(values, strings, set_).0;
            && (forall x :: x in r.ints <==> x in set_.ints || LInt(x) in values)
            && (forall x :: x in r.floats <==> x in set_.floats || LFloat(x) in values)
            && (forall x :: x in r.bools <==> x in set_.bools || LBool(x) in values)
    decreases |values|
  {
    if values != [] {
      var v := values[0];
      var strings' := LiteralStrings(strings, v);
      CollectSetMembers(values[1..], strings', AddToSet(set_, v, strings'));
      assert forall x :: x in values <==> x == v || x in values[1..] by { assert values == [v] + values[1..]; }
    }
  }

  /** The string part holds the ids, in any later table, of exactly the string literals. */
  lemma {:induction false} CollectSetStrings(values: seq<Literal>, strings: seq<string>, set_: CompiledSet,
                                             later: seq<string>, s: string)
    requires Distinct(strings) && Distinct(later) && |later| < ID_WIDTH && s in later
    requires CollectSet(values, strings, set_).1 <= later
    ensures StringId(later, s) in CollectSet(values, strings, set_).0.strings <==>
            StringId(later, s) in set_.strings || LString(s) in values
    decreases |values|
  {
    if values != [] {
      var v, rest := values[0], values[1..];
      var strings' := LiteralStrings(strings, v);
      assert LString(s) in values <==> LString(s) == v || LString(s) in rest by { assert values == [v] + rest; }
      if v.LString? {
        AddKeeps(strings, v.s);
      }
      CollectSetGrows(rest, strings', AddToSet(set_, v, strings'));
      AddedString(set_, v, strings', later, s);
      CollectSetStrings(rest, strings', AddToSet(set_, v, strings'), later, s);
    }
  }

  lemma AddedString(set_: CompiledSet, v: Literal, strings: seq<string>, later: seq<string>, s: string)
    requires Distinct(later) && |later| < ID_WIDTH && s in later && strings <= later
    requires v.LString? ==> v.s in strings
    ensures StringId(later, s) in AddToSet(set_, v, strings).strings
            <==> StringId(later, s) in set_.strings || v == LString(s)
  {
    if v.LString? {
      IdStable(strings, later, v.s, ID_WIDTH);
      IdsInjective(later, ID_WIDTH);
    }
  }

  lemma AddSetCorrect(values: seq<Literal>, t: Tables, u: Tables, ins: Instruction, facts: Option<TypedFacts>,
                      v: Option<FactValue>)
    requires WellFormed(t) && WellFormed(u) && Fits(u) && Extends(AddSet(values, t), u)
    requires ins.setId == |t.sets| % ID_WIDTH && Encodes(At(facts, ins.field), v, u.strings) && v != Some(FNil)
    ensures InSet(ins, facts, u.sets) == Listed(v, values)
  {
    var r := CollectSet(values, t.strings, EmptySet);
    CollectSetMembers(values, t.strings, EmptySet);
    if v.Some? && v.value.FString? {
      CollectSetStrings(values, t.strings, EmptySet, u.strings, v.value.s);
    }
    WrapSmall(|t.sets|, ID_WIDTH);
    assert u.sets[|t.sets|] == AddSet(values, t).sets[|t.sets|] == SortSet(r.0);
    StableSort.SortMembers(r.0.ints, IntBefore());
    StableSort.SortMembers(r.0.floats, RealBefore());
    StableSort.SortMembers(r.0.strings, IntBefore());
  }

  /** A set test agrees with its meaning if and only if it is exact for the fact. */
  lemma InCorrect(v: Option<FactValue>, values: seq<Literal>, lib: Lib)
    requires v != Some(FNil)
    ensures Listed(v, values) == InMeaning(v, values, lib) <==> ExactIn(v, values, lib)
  {
    if Listed(v, values) {
      var own :=
        match v.value
        case FInt(x) => LInt(x)
        case FFloat(x) => LFloat(x)
        case FString(x) => LString(x)
        case FBool(x) => LBool(x);
      var k :| 0 <= k < |values| && values[k] == own;
      assert Equal(v, values[k], lib);
    }
  }

  lemma AddSetSorted(values: seq<Literal>, t: Tables)
    requires SetsSorted(t.sets)
    ensures SetsSorted(AddSet(values, t).sets)
  {
    var r := CollectSet(values, t.strings, EmptySet).0;
    StableSort.SortSorted(r.ints, IntBefore());
    StableSort.SortSorted(r.floats, RealBefore());
    StableSort.SortSorted(r.strings, IntBefore());
  }

  /** Compiling keeps the sets ready for binary search. */
  lemma {:induction false} CompileSorted(e: Expr, t: Tables, lib: Lib)
    requires SetsSorted(t.sets)
    ensures SetsSorted(CompileExpr(e, t, lib).1.sets)
  {
    match e
    case Infix(op, l, r) =>
      if op == "&&" || op == "||" {
        CompileSorted(l, t, lib);
        if CompileExpr(l, t, lib).0.Some? {
          CompileSorted(r, CompileExpr(l, t, lib).1, lib);
        }
      } else if l.Path? && LiteralArray(r).Some? {
        AddSetSorted(LiteralArray(r).value, AddField(t, l.path));
      }
    case Prefix(op, x) =>
      CompileSorted(x, t, lib);
    case _ =>
  }

  // ---------- expressions ----------

  /** The machine reads function names in any case, the evaluator only as they are registered. */
  predicate ExactCall(name: string, args: seq<Expr>, env: Option<Facts>, lib: Lib) {
    if name == "exists" then |args| == 1 && args[0].Path? ==> ExactExists(Lookup(env, args[0].path), lib)
    else if name == "between" then
      |args| == 3 && args[0].Path? && args[1].Lit? && args[2].Lit? ==>
        ExactBetween(Lookup(env, args[0].path), args[1].value, args[2].value, lib)
    else Text.Lower(name) != "exists" && Text.Lower(name) != "between"
  }

  /** Every comparison and call in the expression is exact for these facts. */
  predicate Exact(e: Expr, env: Option<Facts>, strings: seq<string>, lib: Lib) {
    match e
    case Infix(op, l, r) =>
      if op == "&&" || op == "||" then Exact(l, env, strings, lib) && Exact(r, env, strings, lib)
      else if op == "in" || op == "not in" then
        l.Path? && LiteralArray(r).Some? ==> ExactIn(Lookup(env, l.path), LiteralArray(r).value, lib)
      else IsRelation(op) && l.Path? && r.Lit? ==> ExactCompare(op, Lookup(env, l.path), r.value, strings, lib)
    case Prefix(_, x) => Exact(x, env, strings, lib)
    case Call(name, args) => name.Some? ==> ExactCall(name.value, args, env, lib)
    case _ => true
  }

  /** What running code on any stack must do: push one value. */
  ghost predicate Pushes(code: seq<Instruction>, facts: Option<TypedFacts>, sets: seq<CompiledSet>, b: bool) {
    && NoJumps(code)
    && code != []
    && forall stack :: Run(code, facts, sets, stack) == Some(stack + [b])
  }

  lemma PushesOne(ins: Instruction, facts: Option<TypedFacts>, sets: seq<CompiledSet>, b: bool)
    requires ins.op != OpJumpIfFalse && ins.op != OpJumpIfTrue
    requires forall stack :: Step(ins, facts, sets, stack) == Some(stack + [b])
    ensures Pushes([ins], facts, sets, b)
  {
    hide EvalCompare, EvalBetween, InSet, At;
    forall stack ensures Run([ins], facts, sets, stack) == Some(stack + [b]) {
      assert Run([ins][1..], facts, sets, stack + [b]) == Some(stack + [b]);
    }
  }

  lemma PushesBoth(a: seq<Instruction>, b: seq<Instruction>, op: OpCode, facts: Option<TypedFacts>,
                   sets: seq<CompiledSet>, x: bool, y: bool)
    requires Pushes(a, facts, sets, x) && Pushes(b, facts, sets, y) && (op == OpAnd || op == OpOr)
    ensures Pushes(a + b + [Op(op)], facts, sets, if op == OpAnd then x && y else x || y)
  {
    hide EvalCompare, EvalBetween, InSet, At;
    forall stack
      ensures Run(a + b + [Op(op)], facts, sets, stack)
              == Some(stack + [if op == OpAnd then x && y else x || y])
    {
      RunAppend(a + b, [Op(op)], facts, sets, stack);
      RunAppend(a, b, facts, sets, stack);
      var two := stack + [x] + [y];
      assert two[..|two| - 2] == stack;
      assert Run([Op(op)][1..], facts, sets, stack + [if op == OpAnd then x && y else x || y]).Some?;
    }
  }

  lemma RunNot(facts: Option<TypedFacts>, sets: seq<CompiledSet>, stack: seq<bool>, x: bool)
    ensures Run([Op(OpNot)], facts, sets, stack + [x]) == Some(stack + [!x])
  {
    hide EvalCompare, EvalBetween, InSet, At;
    assert (stack + [x])[..|stack|] == stack;
    assert Run([Op(OpNot)][1..], facts, sets, stack + [!x]).Some?;
  }

  lemma PushesNot(a: seq<Instruction>, facts: Option<TypedFacts>, sets: seq<CompiledSet>, x: bool)
    requires Pushes(a, facts, sets, x)
    ensures Pushes(a + [Op(OpNot)], facts, sets, !x)
  {
    hide Run, Step;
    forall stack ensures Run(a + [Op(OpNot)], facts, sets, stack) == Some(stack + [!x]) {
      RunAppend(a, [Op(OpNot)], facts, sets, stack);
      RunNot(facts, sets, stack, x);
    }
  }

  lemma FieldStable(t: Tables, u: Tables, path: string)
    requires WellFormed(t) && t.fields <= u.fields && path in t.fields && Fits(u) && WellFormed(u)
    ensures path in u.fields && FieldId(u, path) == FieldId(t, path) != 0
  {
    IdStable(t.fields, u.fields, path, FIELD_WIDTH);
    IdsInjective(u.fields, FIELD_WIDTH);
  }

  /** The registered field of a path holds its fact. */
  lemma FieldEncodes(t: Tables, u: Tables, path: string, facts: Option<TypedFacts>, env: Option<Facts>)
    requires WellFormed(t) && WellFormed(u) && Fits(u) && Extends(AddField(t, path), u) && Represents(facts, env, u)
    ensures FieldId(AddField(t, path), path) != 0
    ensures Encodes(At(facts, FieldId(AddField(t, path), path)), Lookup(env, path), u.strings)
    ensures Distinct(AddField(t, path).fields)
  {
    AddKeeps(t.fields, path);
    FieldStable(AddField(t, path), u, path);
  }

  lemma CompileInCorrect(op: string, path: string, r: Expr, t: Tables, u: Tables, facts: Option<TypedFacts>,
                         env: Option<Facts>, lib: Lib)
    requires (op == "in" || op == "not in") && LiteralArray(r).Some?
    requires WellFormed(t) && WellFormed(u) && Fits(u) && Represents(facts, env, u)
    requires Extends(AddSet(LiteralArray(r).value, AddField(t, path)), u)
    requires ExactIn(Lookup(env, path), LiteralArray(r).value, lib)
    ensures Pushes(CompileCompare(op, Path(path), r, t, lib).0.value, facts, u.sets,
                   Meaning(Infix(op, Path(path), r), env, lib))
  {
    hide Represents, Encodes, Pushes, InMeaning, Listed, ExactIn, LiteralArray, IndexOf, Equal;
    var values, t1 := LiteralArray(r).value, AddField(t, path);
    CollectSetGrows(values, t.strings, EmptySet);
    FieldEncodes(t, u, path, facts, env);
    var ins := CompileCompare(op, Path(path), r, t, lib).0.value[0];
    AddSetCorrect(values, t1, u, ins, facts, Lookup(env, path));
    InCorrect(Lookup(env, path), values, lib);
    PushesOne(ins, facts, u.sets, Meaning(Infix(op, Path(path), r), env, lib));
  }

  lemma CompileRelationCorrect(op: string, path: string, lit: Literal, t: Tables, u: Tables, facts: Option<TypedFacts>,
                               env: Option<Facts>, lib: Lib)
    requires IsRelation(op)
    requires WellFormed(t) && WellFormed(u) && Fits(u) && Represents(facts, env, u)
    requires Extends(AddField(t, path).(strings := LiteralStrings(t.strings, lit)), u)
    requires ExactCompare(op, Lookup(env, path), lit, u.strings, lib)
    ensures Pushes(CompileCompare(op, Path(path), Lit(lit), t, lib).0.value, facts, u.sets,
                   CompareMeaning(op, Lookup(env, path), lit, lib))
  {
    var strings := LiteralStrings(t.strings, lit);
    if lit.LString? {
      AddKeeps(t.strings, lit.s);
      IdStable(strings, u.strings, lit.s, ID_WIDTH);
    }
    FieldEncodes(t, u, path, facts, env);
    var ins := CompileCompare(op, Path(path), Lit(lit), t, lib).0.value[0];
    CompareCorrect(op, ins, facts, Lookup(env, path), lit, u.strings, lib);
    PushesOne(ins, facts, u.sets, CompareMeaning(op, Lookup(env, path), lit, lib));
  }

  lemma CompileCompareCorrect(op: string, l: Expr, r: Expr, t: Tables, u: Tables, facts: Option<TypedFacts>,
                              env: Option<Facts>, lib: Lib)
    requires op != "&&" && op != "||"
    requires WellFormed(t) && WellFormed(u) && Fits(u)
    requires CompileCompare(op, l, r, t, lib).0.Some? && Extends(CompileCompare(op, l, r, t, lib).1, u)
    requires Represents(facts, env, u) && Exact(Infix(op, l, r), env, u.strings, lib)
    ensures Pushes(CompileCompare(op, l, r, t, lib).0.value, facts, u.sets, Meaning(Infix(op, l, r), env, lib))
  {
    if op == "in" || op == "not in" {
      CompileInCorrect(op, l.path, r, t, u, facts, env, lib);
    } else {
      CompileRelationCorrect(op, l.path, r.value, t, u, facts, env, lib);
    }
  }

  /** A compiled `between` agrees with its meaning if and only if it is exact for the fact and the bounds. */
  lemma BetweenCorrect(ins: Instruction, facts: Option<TypedFacts>, v: Option<FactValue>, min: Literal, max: Literal,
                       strings: seq<string>, lib: Lib)
    requires LitNumber(min, lib) == Some(ins.fa) && LitNumber(max, lib) == Some(ins.fb) && v != Some(FNil)
    requires Encodes(At(facts, ins.field), v, strings)
    ensures EvalBetween(ins, facts) == BetweenMeaning(v, min, max, lib) <==> ExactBetween(v, min, max, lib)
  {
  }

  /** A compiled `exists` agrees with its meaning, errors included, if and only if it is exact for the fact. */
  lemma ExistsCorrect(tv: TypedValue, v: Option<FactValue>, strings: seq<string>, lib: Lib)
    requires Encodes(tv, v, strings) && v != Some(FNil)
    ensures Some(tv != Missing) == ExistsMeaning(v, lib) <==> ExactExists(v, lib)
  {
  }

  lemma LowerNames()
    ensures Text.Lower("exists") == "exists" && Text.Lower("between") == "between"
  {
  }

  lemma CompileCallCorrect(name: Option<string>, args: seq<Expr>, t: Tables, u: Tables, facts: Option<TypedFacts>,
                           env: Option<Facts>, lib: Lib)
    requires WellFormed(t) && WellFormed(u) && Fits(u)
    requires CompileCall(name, args, t, lib).0.Some? && Extends(CompileCall(name, args, t, lib).1, u)
    requires Represents(facts, env, u) && Exact(Call(name, args), env, u.strings, lib)
    ensures Pushes(CompileCall(name, args, t, lib).0.value, facts, u.sets, Meaning(Call(name, args), env, lib))
  {
    hide Represents, Pushes, IndexOf, CompileExpr;
    var path := args[0].path;
    FieldEncodes(t, u, path, facts, env);
    var ins := CompileCall(name, args, t, lib).0.value[0];
    LowerNames();
    if name.value == "exists" {
      ExistsCorrect(At(facts, ins.field), Lookup(env, path), u.strings, lib);
    } else {
      BetweenCorrect(ins, facts, Lookup(env, path), args[1].value, args[2].value, u.strings, lib);
    }
    PushesOne(ins, facts, u.sets, Meaning(Call(name, args), env, lib));
  }

  /** For every expression the compiler accepts, and however far the tables have grown since, its code pushes
      exactly one value on any stack, never underflows, and that value is the expression's meaning. */
  lemma {:induction false} CompileCorrect(e: Expr, t: Tables, u: Tables, facts: Option<TypedFacts>, env: Option<Facts>,
                                          lib: Lib)
    requires WellFormed(t) && WellFormed(u) && Fits(u)
    requires CompileExpr(e, t, lib).0.Some? && Extends(CompileExpr(e, t, lib).1, u)
    requires Represents(facts, env, u) && Exact(e, env, u.strings, lib)
    ensures Pushes(CompileExpr(e, t, lib).0.value, facts, u.sets, Meaning(e, env, lib))
  {
    match e
    case Infix(op, l, r) =>
      if op == "&&" || op == "||" {
        var left := CompileExpr(l, t, lib);
        CompileGrows(l, t, lib);
        CompileGrows(r, left.1, lib);
        ExtendsTransitive(left.1, CompileExpr(r, left.1, lib).1, u);
        CompileCorrect(l, t, u, facts, env, lib);
        CompileCorrect(r, left.1, u, facts, env, lib);
        PushesBoth(left.0.value, CompileExpr(r, left.1, lib).0.value, if op == "||" then OpOr else OpAnd,
                   facts, u.sets, Meaning(l, env, lib), Meaning(r, env, lib));
      } else {
        CompileCompareCorrect(op, l, r, t, u, facts, env, lib);
      }
    case Prefix(op, x) =>
      CompileCorrect(x, t, u, facts, env, lib);
      PushesNot(CompileExpr(x, t, lib).0.value, facts, u.sets, Meaning(x, env, lib));
    case Call(name, args) =>
      CompileCallCorrect(name, args, t, u, facts, env, lib);
    case Lit(v) =>
      PushesOne(Constant(Truthy(v)), facts, u.sets, Truthy(v));
  }

  lemma ExtendsTransitive(t: Tables, u: Tables, w: Tables)
    requires Extends(t, u) && Extends(u, w)
    ensures Extends(t, w)
  {
  }

  /** The machine's verdict on compiled code is the expression's meaning. */
  lemma VerdictIsMeaning(e: Expr, t: Tables, u: Tables, facts: Option<TypedFacts>, env: Option<Facts>, lib: Lib)
    requires WellFormed(t) && WellFormed(u) && Fits(u)
    requires CompileExpr(e, t, lib).0.Some? && Extends(CompileExpr(e, t, lib).1, u)
    requires Represents(facts, env, u) && Exact(e, env, u.strings, lib)
    ensures Exec(CompileExpr(e, t, lib).0.value, facts, u.sets, 0, []) == Some([Meaning(e, env, lib)])
    ensures Accepts(CompileExpr(e, t, lib).0.value, facts, u.sets) == Meaning(e, env, lib)
  {
    CompileCorrect(e, t, u, facts, env, lib);
    var code := CompileExpr(e, t, lib).0.value;
    ExecIsRun(code, facts, u.sets, 0, []);
    assert code[0..] == code;
    var none: seq<bool> := [];
    assert none + [Meaning(e, env, lib)] == [Meaning(e, env, lib)];
  }
}
