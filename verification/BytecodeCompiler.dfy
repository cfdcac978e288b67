/** The bytecode compiler (bytecode.go): expressions to postfix code over interned names, strings and sets. */
module BytecodeCompiler {
  import opened Wrappers
  import opened BytecodeRegistry
  import opened BytecodeExpr
  import StableSort
  import Text

  datatype OpCode =
    | OpEq | OpNeq | OpGt | OpGte | OpLt | OpLte | OpIn | OpNotIn | OpBetween | OpExists | OpNotExists
    | OpAnd | OpOr | OpNot | OpJumpIfFalse | OpJumpIfTrue

  datatype ValueKind = ValueMissing | ValueInt | ValueFloat | ValueString | ValueBool | ValueTime

  /** `fa` and `fb` are the operands A and B read through `math.Float64frombits`. */
  datatype Instruction = Instruction(
    op: OpCode, field: int, kind: ValueKind, a: int, fa: real, fb: real, setId: int, jump: nat)

  datatype CompiledSet = CompiledSet(
    kind: ValueKind, ints: seq<int>, floats: seq<real>, strings: seq<int>, bools: seq<bool>)

  /** Everything a compilation adds to: field names, interned strings and constant sets. */
  datatype Tables = Tables(fields: seq<string>, strings: seq<string>, sets: seq<CompiledSet>)

  function Op(op: OpCode): Instruction {
    Instruction(op, 0, ValueMissing, 0, 0.0, 0.0, 0, 0)
  }

  function OnField(op: OpCode, field: int): Instruction {
    Op(op).(field := field)
  }

  function Constant(b: bool): Instruction {
    Op(if b then OpExists else OpNotExists)
  }

  // ---------- the compiler as a function of the tables ----------

  function AddField(t: Tables, name: string): Tables {
    t.(fields := Add(t.fields, name))
  }

  function FieldId(t: Tables, name: string): int
    requires name in t.fields
  {
    Id(t.fields, name, FIELD_WIDTH)
  }

  function StringId(strings: seq<string>, s: string): int
    requires s in strings
  {
    Id(strings, s, ID_WIDTH)
  }

  /** The strings table after compiling a literal. */
  function LiteralStrings(strings: seq<string>, v: Literal): seq<string> {
    if v.LString? then Add(strings, v.s) else strings
  }

  function KindOf(v: Literal): ValueKind {
    match v
    case LNull => ValueMissing
    case LBool(_) => ValueBool
    case LInt(_) => ValueInt
    case LFloat(_) => ValueFloat
    case LString(_) => ValueString
  }

  /** `compileLiteral`: the raw 64-bit operand. */
  function RawOf(v: Literal, strings: seq<string>, lib: Lib): int
    requires v.LString? ==> v.s in strings
  {
    match v
    case LNull => 0
    case LBool(b) => BoolInt(b)
    case LInt(i) => i
    case LFloat(f) => lib.floatBits(f)
    case LString(s) => StringId(strings, s)
  }

  function FloatOf(v: Literal): real {
    if v.LFloat? then v.f else 0.0
  }

  function CompareOp(op: string): Option<OpCode> {
    if op == "==" then Some(OpEq)
    else if op == "!=" then Some(OpNeq)
    else if op == ">" then Some(OpGt)
    else if op == ">=" then Some(OpGte)
    else if op == "<" then Some(OpLt)
    else if op == "<=" then Some(OpLte)
    else if op == "in" then Some(OpIn)
    else if op == "not in" then Some(OpNotIn)
    else None
  }

  const EmptySet := CompiledSet(ValueMissing, [], [], [], [])

  /** One element of `addSet`: it goes to the part of its own kind. */
  function AddToSet(set_: CompiledSet, v: Literal, strings: seq<string>): CompiledSet
    requires v.LString? ==> v.s in strings
  {
    var s := if set_.kind == ValueMissing then set_.(kind := KindOf(v)) else set_;
    match v
    case LNull => s
    case LInt(i) => s.(ints := s.ints + [i])
    case LFloat(f) => s.(floats := s.floats + [f])
    case LString(x) => s.(strings := s.strings + [StringId(strings, x)])
    case LBool(b) => s.(bools := s.bools + [b])
  }

  function CollectSet(values: seq<Literal>, strings: seq<string>, set_: CompiledSet): (CompiledSet, seq<string>)
    decreases |values|
  {
    if values == [] then (set_, strings)
    else
      var strings' := LiteralStrings(strings, values[0]);
      CollectSet(values[1..], strings', AddToSet(set_, values[0], strings'))
  }

  function IntBefore(): (int, int) -> bool { (a: int, b: int) => a < b }

  function RealBefore(): (real, real) -> bool { (a: real, b: real) => a < b }

  function SortSet(s: CompiledSet): CompiledSet {
    s.(ints := StableSort.Sort(s.ints, IntBefore()), floats := StableSort.Sort(s.floats, RealBefore()),
       strings := StableSort.Sort(s.strings, IntBefore()))
  }

  /** `addSet`. */
  function AddSet(values: seq<Literal>, t: Tables): Tables {
    var r := CollectSet(values, t.strings, EmptySet);
    Tables(t.fields, r.1, t.sets + [SortSet(r.0)])
  }

  /** `compileCompareExpr`; nothing for an expression it rejects. */
  function CompileCompare(op: string, l: Expr, r: Expr, t: Tables, lib: Lib): (Option<seq<Instruction>>, Tables) {
    if !l.Path? then (None, t)
    else
      var t1 := AddField(t, l.path);
      var opc := CompareOp(op);
      if opc.None? then (None, t1)
      else if op == "in" || op == "not in" then
        var values := LiteralArray(r);
        if values.None? then (None, t1)
        else
          var t2 := AddSet(values.value, t1);
          (Some([OnField(opc.value, FieldId(t1, l.path)).(kind := t2.sets[|t1.sets|].kind,
                                                          setId := |t1.sets| % ID_WIDTH)]), t2)
      else if !r.Lit? then (None, t1)
      else
        var t2 := t1.(strings := LiteralStrings(t1.strings, r.value));
        (Some([OnField(opc.value, FieldId(t1, l.path)).(kind := KindOf(r.value), a := RawOf(r.value, t2.strings, lib),
                                                        fa := FloatOf(r.value))]), t2)
  }

  function CompileCall(name: Option<string>, args: seq<Expr>, t: Tables, lib: Lib): (Option<seq<Instruction>>, Tables) {
    if name.None? then (None, t)
    else if Text.Lower(name.value) == "exists" then
      if |args| != 1 || !args[0].Path? then (None, t)
      else
        var t1 := AddField(t, args[0].path);
        (Some([OnField(OpExists, FieldId(t1, args[0].path))]), t1)
    else if Text.Lower(name.value) == "between" then
      if |args| != 3 || !args[0].Path? then (None, t)
      else
        var min, max := LiteralNumber(args[1], lib), LiteralNumber(args[2], lib);
        if min.None? || max.None? then (None, t)
        else
          var t1 := AddField(t, args[0].path);
          (Some([OnField(OpBetween, FieldId(t1, args[0].path)).(kind := ValueFloat, a := lib.floatBits(min.value),
                                                                fa := min.value, fb := max.value)]), t1)
    else (None, t)
  }

  /** `compileBytecodeExpr`. */
  function CompileExpr(e: Expr, t: Tables, lib: Lib): (Option<seq<Instruction>>, Tables) {
    match e
    case Infix(op, l, r) =>
      if op == "&&" || op == "||" then
        var left := CompileExpr(l, t, lib);
        if left.0.None? then left
        else
          var right := CompileExpr(r, left.1, lib);
          if right.0.None? then right
          else (Some(left.0.value + right.0.value + [Op(if op == "||" then OpOr else OpAnd)]), right.1)
      else CompileCompare(op, l, r, t, lib)
    case Prefix(op, x) =>
      if op != "!" then (None, t)
      else
        var inner := CompileExpr(x, t, lib);
        if inner.0.None? then inner else (Some(inner.0.value + [Op(OpNot)]), inner.1)
    case Call(name, args) => CompileCall(name, args, t, lib)
    case Lit(v) => (Some([Constant(Truthy(v))]), t)
    case _ => (None, t)
  }

  // ---------- the tables only grow ----------

  ghost predicate Extends(t: Tables, u: Tables) {
    t.fields <= u.fields && t.strings <= u.strings && t.sets <= u.sets
  }

  ghost predicate WellFormed(t: Tables) {
    Distinct(t.fields) && Distinct(t.strings)
  }

  /** No id has wrapped. */
  ghost predicate Fits(t: Tables) {
    |t.fields| < FIELD_WIDTH && |t.strings| < ID_WIDTH && |t.sets| <= ID_WIDTH
  }

  lemma {:induction false} CollectSetGrows(values: seq<Literal>, strings: seq<string>, set_: CompiledSet)
    requires Distinct(strings)
    ensures strings <= CollectSet(values, strings, set_).1 && Distinct(CollectSet(values, strings, set_).1)
    decreases |values|
  {
    if values != [] {
      var strings' := LiteralStrings(strings, values[0]);
      if values[0].LString? {
        AddKeeps(strings, values[0].s);
      }
      CollectSetGrows(values[1..], strings', AddToSet(set_, values[0], strings'));
    }
  }

  lemma CompileCompareGrows(op: string, l: Expr, r: Expr, t: Tables, lib: Lib)
    requires WellFormed(t)
    ensures Extends(t, CompileCompare(op, l, r, t, lib).1) && WellFormed(CompileCompare(op, l, r, t, lib).1)
  {
    if l.Path? {
      AddKeeps(t.fields, l.path);
      if LiteralArray(r).Some? {
        CollectSetGrows(LiteralArray(r).value, t.strings, EmptySet);
      }
      if r.Lit? && r.value.LString? {
        AddKeeps(t.strings, r.value.s);
      }
    }
  }

  lemma {:induction false} CompileGrows(e: Expr, t: Tables, lib: Lib)
    requires WellFormed(t)
    ensures Extends(t, CompileExpr(e, t, lib).1) && WellFormed(CompileExpr(e, t, lib).1)
  {
    match e
    case Infix(op, l, r) =>
      if op == "&&" || op == "||" {
        CompileGrows(l, t, lib);
        if CompileExpr(l, t, lib).0.Some? {
          CompileGrows(r, CompileExpr(l, t, lib).1, lib);
        }
      } else {
        CompileCompareGrows(op, l, r, t, lib);
      }
    case Prefix(op, x) =>
      CompileGrows(x, t, lib);
    case Call(name, args) =>
      if |args| > 0 && args[0].Path? {
        AddKeeps(t.fields, args[0].path);
      }
    case _ =>
  }

  // ---------- the code ----------

  class Program {
    var sets: seq<CompiledSet>

    constructor ()
      ensures sets == []
    {
      sets := [];
    }
  }

  ghost function TablesOf(registry: Registry, p: Program): Tables
    reads registry, p
  {
    Tables(registry.fieldNames, registry.stringVals, p.sets)
  }

  method CompileLiteral(registry: Registry, v: Literal, lib: Lib) returns (kind: ValueKind, raw: int, f: real)
    requires registry.Valid()
    modifies registry`strings, registry`stringVals
    ensures registry.Valid()
    ensures registry.stringVals == LiteralStrings(old(registry.stringVals), v)
    ensures kind == KindOf(v) && raw == RawOf(v, registry.stringVals, lib) && f == FloatOf(v)
  {
    kind, raw, f := KindOf(v), 0, 0.0;
    match v {
      case LNull =>
      case LBool(b) => raw := if b then 1 else 0;
      case LInt(i) => raw := i;
      case LFloat(x) => raw, f := lib.floatBits(x), x;
      case LString(s) => raw := registry.Intern(s);
    }
  }

  method AddSetTo(p: Program, registry: Registry, values: seq<Literal>, lib: Lib) returns (id: int, kind: ValueKind)
    requires registry.Valid()
    modifies registry`strings, registry`stringVals, p`sets
    ensures registry.Valid()
    ensures TablesOf(registry, p) == AddSet(values, old(TablesOf(registry, p)))
    ensures id == |old(p.sets)| % ID_WIDTH && kind == p.sets[|old(p.sets)|].kind
  {
    var set_ := EmptySet;
    for i := 0 to |values|
      invariant registry.Valid() && p.sets == old(p.sets)
      invariant CollectSet(values[i..], registry.stringVals, set_)
                == CollectSet(values, old(registry.stringVals), EmptySet)
    {
      ghost var before, strings := set_, registry.stringVals;
      var v := values[i];
      assert values[i..][0] == v && values[i..][1..] == values[i + 1..];
      var k, raw, f := CompileLiteral(registry, v, lib);
      if set_.kind == ValueMissing {
        set_ := set_.(kind := k);
      }
      match k {
        case ValueInt => set_ := set_.(ints := set_.ints + [raw]);
        case ValueFloat => set_ := set_.(floats := set_.floats + [f]);
        case ValueString => set_ := set_.(strings := set_.strings + [raw]);
        case ValueBool => set_ := set_.(bools := set_.bools + [raw != 0]);
        case _ =>
      }
      assert set_ == AddToSet(before, v, registry.stringVals);
    }
    assert values[|values|..] == [];
    set_ := set_.(ints := StableSort.Sort(set_.ints, IntBefore()));
    set_ := set_.(floats := StableSort.Sort(set_.floats, RealBefore()));
    set_ := set_.(strings := StableSort.Sort(set_.strings, IntBefore()));
    id, kind := |p.sets| % ID_WIDTH, set_.kind;
    p.sets := p.sets + [set_];
  }

  method CompileCompareExpr(op: string, l: Expr, r: Expr, registry: Registry, p: Program, lib: Lib)
    returns (code: Option<seq<Instruction>>)
    requires registry.Valid()
    modifies registry`fields, registry`fieldNames, registry`strings, registry`stringVals, p`sets
    ensures registry.Valid()
    ensures CompileCompare(op, l, r, old(TablesOf(registry, p)), lib) == (code, TablesOf(registry, p))
  {
    if !l.Path? {
      return None;
    }
    var field := registry.Field(l.path);
    var opc := CompareOp(op);
    if opc.None? {
      return None;
    }
    if op == "in" || op == "not in" {
      var values := LiteralArray(r);
      if values.None? {
        return None;
      }
      var setId, kind := AddSetTo(p, registry, values.value, lib);
      return Some([OnField(opc.value, field).(kind := kind, setId := setId)]);
    }
    if !r.Lit? {
      return None;
    }
    var kind, raw, f := CompileLiteral(registry, r.value, lib);
    code := Some([OnField(opc.value, field).(kind := kind, a := raw, fa := f)]);
  }

  method CompileBytecodeExpr(e: Expr, registry: Registry, p: Program, lib: Lib) returns (code: Option<seq<Instruction>>)
    requires registry.Valid()
    modifies registry`fields, registry`fieldNames, registry`strings, registry`stringVals, p`sets
    ensures registry.Valid()
    ensures CompileExpr(e, old(TablesOf(registry, p)), lib) == (code, TablesOf(registry, p))
    decreases e
  {
    match e {
      case Infix(op, l, r) =>
        if op == "&&" || op == "||" {
          var left := CompileBytecodeExpr(l, registry, p, lib);
          if left.None? {
            return None;
          }
          var right := CompileBytecodeExpr(r, registry, p, lib);
          if right.None? {
            return None;
          }
          var opc := OpAnd;
          if op == "||" {
            opc := OpOr;
          }
          return Some(left.value + right.value + [Op(opc)]);
        }
        code := CompileCompareExpr(op, l, r, registry, p, lib);
      case Prefix(op, x) =>
        if op != "!" {
          return None;
        }
        var inner := CompileBytecodeExpr(x, registry, p, lib);
        if inner.None? {
          return None;
        }
        code := Some(inner.value + [Op(OpNot)]);
      case Call(name, args) =>
        if name.None? {
          return None;
        }
        if Text.Lower(name.value) == "exists" {
          if |args| != 1 || !args[0].Path? {
            return None;
          }
          var field := registry.Field(args[0].path);
          return Some([OnField(OpExists, field)]);
        }
        if Text.Lower(name.value) == "between" {
          if |args| != 3 || !args[0].Path? {
            return None;
          }
          var min, max := LiteralNumber(args[1], lib), LiteralNumber(args[2], lib);
          if min.None? || max.None? {
            return None;
          }
          var field := registry.Field(args[0].path);
          return Some([OnField(OpBetween, field).(kind := ValueFloat, a := lib.floatBits(min.value),
                                                  fa := min.value, fb := max.value)]);
        }
        code := None;
      case Lit(v) =>
        if Truthy(v) {
          return Some([Op(OpExists)]);
        }
        code := Some([Op(OpNotExists)]);
      case _ =>
        code := None;
    }
  }
}
