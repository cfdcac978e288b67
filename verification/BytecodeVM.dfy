/** The stack machine (bytecode.go) and the correctness of the compiler on it. */
module BytecodeVM {
  import opened Wrappers
  import opened BytecodeExpr
  import opened BytecodeCompiler
  import StableSort

  datatype TypedValue = Missing | VInt(int) | VFloat(real) | VString(int) | VBool(bool) | VTime(int)

  /** One slot per field id. */
  type TypedFacts = seq<TypedValue>

  function At(facts: Option<TypedFacts>, field: int): TypedValue {
    if facts.Some? && 0 <= field < |facts.value| then facts.value[field] else Missing
  }

  // ---------- one instruction ----------

  /** Go's conversion of a float to an integer truncates toward zero. */
  function Trunc(f: real): int {
    if f >= 0.0 then f.Floor else -(-f).Floor
  }

  function LiteralAsInt(ins: Instruction): Option<int> {
    match ins.kind
    case ValueInt => Some(ins.a)
    case ValueTime => Some(ins.a)
    case ValueFloat => Some(Trunc(ins.fa))
    case _ => None
  }

  function LiteralAsFloat(ins: Instruction): Option<real> {
    match ins.kind
    case ValueFloat => Some(ins.fa)
    case ValueInt => Some(ins.a as real)
    case ValueTime => Some(ins.a as real)
    case _ => None
  }

  function CompareTyped(ins: Instruction, v: TypedValue): Option<int> {
    match v
    case VInt(x) => if LiteralAsInt(ins).Some? then Some(CmpInt(x, LiteralAsInt(ins).value)) else None
    case VTime(x) => Some(CmpInt(x, ins.a))
    case VFloat(x) => if LiteralAsFloat(ins).Some? then Some(CmpReal(x, LiteralAsFloat(ins).value)) else None
    case VString(x) => if ins.kind == ValueString then Some(CmpInt(x, ins.a)) else None
    case VBool(x) => if ins.kind == ValueBool then Some(CmpInt(BoolInt(x), ins.a)) else None
    case Missing => None
  }

  predicate EvalCompare(ins: Instruction, facts: Option<TypedFacts>) {
    var v := At(facts, ins.field);
    if v == Missing then ins.op == OpNeq && ins.kind == ValueMissing
    else
      var cmp := CompareTyped(ins, v);
      if cmp.None? then false
      else
        match ins.op
        case OpEq => cmp.value == 0
        case OpNeq => cmp.value != 0
        case OpGt => cmp.value > 0
        case OpGte => cmp.value >= 0
        case OpLt => cmp.value < 0
        case OpLte => cmp.value <= 0
        case _ => false
  }

  predicate EvalBetween(ins: Instruction, facts: Option<TypedFacts>) {
    match At(facts, ins.field)
    case VInt(x) => ins.fa <= x as real <= ins.fb
    case VFloat(x) => ins.fa <= x <= ins.fb
    case VTime(x) => ins.fa <= x as real <= ins.fb
    case _ => false
  }

  /** What `evalIn` finds by binary search: membership in the part of the fact's kind. */
  predicate InSet(ins: Instruction, facts: Option<TypedFacts>, sets: seq<CompiledSet>) {
    0 <= ins.setId < |sets| &&
    var set_ := sets[ins.setId];
    match At(facts, ins.field)
    case VInt(x) => x in set_.ints
    case VFloat(x) => x in set_.floats
    case VString(x) => x in set_.strings
    case VBool(x) => x in set_.bools
    case _ => false
  }

  /** The stack after one instruction, or nothing when it underflows. Jumps leave the stack alone. */
  function Step(ins: Instruction, facts: Option<TypedFacts>, sets: seq<CompiledSet>, stack: seq<bool>)
    : Option<seq<bool>>
  {
    var n := |stack|;
    match ins.op
    case OpIn => Some(stack + [InSet(ins, facts, sets)])
    case OpNotIn => Some(stack + [!InSet(ins, facts, sets)])
    case OpBetween => Some(stack + [EvalBetween(ins, facts)])
    case OpExists => Some(stack + [ins.field == 0 || At(facts, ins.field) != Missing])
    case OpNotExists => Some(stack + [ins.field != 0 && At(facts, ins.field) == Missing])
    case OpAnd => if n < 2 then None else Some(stack[..n - 2] + [stack[n - 2] && stack[n - 1]])
    case OpOr => if n < 2 then None else Some(stack[..n - 2] + [stack[n - 2] || stack[n - 1]])
    case OpNot => if n < 1 then None else Some(stack[..n - 1] + [!stack[n - 1]])
    case OpJumpIfFalse => Some(stack)
    case OpJumpIfTrue => Some(stack)
    case _ => Some(stack + [EvalCompare(ins, facts)])
  }

  function NextPc(ins: Instruction, pc: nat, stack: seq<bool>): (next: nat)
    ensures next > pc
  {
    var taken := |stack| > 0 && ((ins.op == OpJumpIfFalse && !stack[|stack| - 1])
                                 || (ins.op == OpJumpIfTrue && stack[|stack| - 1]));
    if taken then pc + ins.jump + 1 else pc + 1
  }

  /** The machine from `pc` on: its final stack, or nothing after an underflow. */
  function Exec(code: seq<Instruction>, facts: Option<TypedFacts>, sets: seq<CompiledSet>, pc: nat, stack: seq<bool>)
    : Option<seq<bool>>
    decreases |code| - pc
  {
    if pc >= |code| then Some(stack)
    else
      var s := Step(code[pc], facts, sets, stack);
      if s.None? then None else Exec(code, facts, sets, NextPc(code[pc], pc, stack), s.value)
  }

  // ---------- the code ----------

  ghost predicate SetsSorted(sets: seq<CompiledSet>) {
    forall k :: 0 <= k < |sets| ==>
                  && StableSort.Sorted(sets[k].ints, IntBefore())
                  && StableSort.Sorted(sets[k].floats, RealBefore())
                  && StableSort.Sorted(sets[k].strings, IntBefore())
  }

  /** Binary search in a sorted part, the order telling any two values apart. */
  method SearchPart<T(==,!new)>(s: seq<T>, v: T, before: (T, T) -> bool) returns (found: bool)
    requires StableSort.Order(before) && StableSort.Sorted(s, before)
    requires forall x, y :: !before(x, y) && !before(y, x) ==> x == y
    ensures found <==> v in s
  {
    var atLeast := k requires 0 <= k < |s| => !before(s[k], v);
    assert forall k, m :: 0 <= k < m < |s| && atLeast(k) ==> atLeast(m);
    var i := StableSort.Search(|s|, atLeast);
    assert i < |s| ==> atLeast(i);
    if v in s {
      ghost var k :| 0 <= k < |s| && s[k] == v;
      assert atLeast(k) && i <= k;
      assert i == k || !before(s[k], s[i]);
    }
    found := i < |s| && s[i] == v;
  }

  /** `evalIn`: binary search in the sorted parts, a scan of the booleans. */
  method EvalIn(ins: Instruction, facts: Option<TypedFacts>, sets: seq<CompiledSet>) returns (found: bool)
    requires SetsSorted(sets) && 0 <= ins.setId
    ensures found == InSet(ins, facts, sets)
  {
    if facts.None? || ins.setId >= |sets| {
      return false;
    }
    var set_ := sets[ins.setId];
    match At(facts, ins.field) {
      case VInt(x) => found := SearchPart(set_.ints, x, IntBefore());
      case VFloat(x) => found := SearchPart(set_.floats, x, RealBefore());
      case VString(x) => found := SearchPart(set_.strings, x, IntBefore());
      case VBool(x) =>
        for i := 0 to |set_.bools|
          invariant x !in set_.bools[..i]
        {
          if set_.bools[i] == x {
            return true;
          }
        }
        found := false;
      case _ => found := false;
    }
  }

  lemma ExecNext(code: seq<Instruction>, facts: Option<TypedFacts>, sets: seq<CompiledSet>, pc: nat, stack: seq<bool>)
    requires pc < |code| && Exec(code, facts, sets, pc, stack).Some?
    ensures Step(code[pc], facts, sets, stack).Some?
    ensures Exec(code, facts, sets, pc, stack)
            == Exec(code, facts, sets, NextPc(code[pc], pc, stack), Step(code[pc], facts, sets, stack).value)
  {
    hide Step, NextPc;
  }

  lemma ExecEnd(code: seq<Instruction>, facts: Option<TypedFacts>, sets: seq<CompiledSet>, pc: nat, stack: seq<bool>)
    requires pc >= |code|
    ensures Exec(code, facts, sets, pc, stack) == Some(stack)
  {
  }

  /** `evalInstructions`; code that underflows makes the Go library panic. */
  method EvalInstructions(code: seq<Instruction>, facts: Option<TypedFacts>, sets: seq<CompiledSet>) returns (b: bool)
    requires SetsSorted(sets) && forall k :: 0 <= k < |code| ==> 0 <= code[k].setId
    requires Exec(code, facts, sets, 0, []).Some?
    ensures b == Accepts(code, facts, sets)
  {
    hide Exec, InSet, EvalBetween, EvalCompare, At, SetsSorted;
    if |code| == 0 {
      return true;
    }
    var stack: seq<bool> := [];
    var pc := 0;
    while pc < |code|
      invariant 0 <= pc
      invariant Exec(code, facts, sets, pc, stack) == Exec(code, facts, sets, 0, [])
      decreases |code| - pc
    {
      var ins := code[pc];
      var n := |stack|;
      ExecNext(code, facts, sets, pc, stack);
      ghost var s := Step(ins, facts, sets, stack);
      ghost var next := NextPc(ins, pc, stack);
      match ins.op {
        case OpIn =>
          var ok := EvalIn(ins, facts, sets);
          stack := stack + [ok];
        case OpNotIn =>
          var ok := EvalIn(ins, facts, sets);
          stack := stack + [!ok];
        case OpBetween => stack := stack + [EvalBetween(ins, facts)];
        case OpExists =>
          stack := stack + [if ins.field == 0 then true else At(facts, ins.field) != Missing];
        case OpNotExists =>
          stack := stack + [if ins.field == 0 then false else At(facts, ins.field) == Missing];
        case OpAnd => stack := stack[..n - 2] + [stack[n - 2] && stack[n - 1]];
        case OpOr => stack := stack[..n - 2] + [stack[n - 2] || stack[n - 1]];
        case OpNot => stack := stack[..n - 1] + [!stack[n - 1]];
        case OpJumpIfFalse =>
          if n > 0 && !stack[n - 1] {
            pc := pc + ins.jump;
          }
        case OpJumpIfTrue =>
          if n > 0 && stack[n - 1] {
            pc := pc + ins.jump;
          }
        case _ => stack := stack + [EvalCompare(ins, facts)];
      }
      pc := pc + 1;
      assert s == Some(stack) && next == pc;
    }
    ExecEnd(code, facts, sets, pc, stack);
    b := |stack| > 0 && stack[|stack| - 1];
  }

  /** The verdict of a run: the top of the final stack; no code at all accepts. */
  predicate Accepts(code: seq<Instruction>, facts: Option<TypedFacts>, sets: seq<CompiledSet>) {
    if |code| == 0 then true
    else
      var s := Exec(code, facts, sets, 0, []);
      s.Some? && |s.value| > 0 && s.value[|s.value| - 1]
  }

  /** A jump is taken on the top value its name says, over as many instructions as it says, and leaves the stack alone;
      on an empty stack, or on the other value, it does nothing. */
  lemma JumpsExactly(code: seq<Instruction>, facts: Option<TypedFacts>, sets: seq<CompiledSet>, pc: nat,
                     stack: seq<bool>, top: bool)
    requires pc < |code| && (code[pc].op == OpJumpIfFalse || code[pc].op == OpJumpIfTrue)
    ensures Exec(code, facts, sets, pc, []) == Exec(code, facts, sets, pc + 1, [])
    ensures top == (code[pc].op == OpJumpIfTrue) ==>
              Exec(code, facts, sets, pc, stack + [top])
              == Exec(code, facts, sets, pc + code[pc].jump + 1, stack + [top])
    ensures top != (code[pc].op == OpJumpIfTrue) ==>
              Exec(code, facts, sets, pc, stack + [top]) == Exec(code, facts, sets, pc + 1, stack + [top])
  {
  }

  /** Code that is empty accepts, code that leaves nothing does not, and other code accepts by its last value. */
  lemma AcceptsExactly(code: seq<Instruction>, facts: Option<TypedFacts>, sets: seq<CompiledSet>, stack: seq<bool>,
                       top: bool)
    ensures Accepts([], facts, sets)
    ensures code != [] && Exec(code, facts, sets, 0, []) == Some([]) ==> !Accepts(code, facts, sets)
    ensures code != [] && Exec(code, facts, sets, 0, []) == Some(stack + [top]) ==> Accepts(code, facts, sets) == top
  {
  }

  // ---------- straight-line code ----------

  ghost predicate NoJumps(code: seq<Instruction>) {
    forall k :: 0 <= k < |code| ==> code[k].op != OpJumpIfFalse && code[k].op != OpJumpIfTrue
  }

  ghost function Run(code: seq<Instruction>, facts: Option<TypedFacts>, sets: seq<CompiledSet>, stack: seq<bool>)
    : Option<seq<bool>>
    decreases |code|
  {
    if code == [] then Some(stack)
    else
      var s := Step(code[0], facts, sets, stack);
      if s.None? then None else Run(code[1..], facts, sets, s.value)
  }

  lemma {:induction false} RunAppend(a: seq<Instruction>, b: seq<Instruction>, facts: Option<TypedFacts>,
                                     sets: seq<CompiledSet>, stack: seq<bool>)
    ensures Run(a + b, facts, sets, stack) ==
            if Run(a, facts, sets, stack).None? then None else Run(b, facts, sets, Run(a, facts, sets, stack).value)
    decreases |a|
  {
    if a == [] {
      assert a + b == b;
    } else {
      assert (a + b)[1..] == a[1..] + b;
      var s := Step(a[0], facts, sets, stack);
      if s.Some? {
        RunAppend(a[1..], b, facts, sets, s.value);
      }
    }
  }

  lemma {:induction false} ExecIsRun(code: seq<Instruction>, facts: Option<TypedFacts>, sets: seq<CompiledSet>,
                                     pc: nat, stack: seq<bool>)
    requires NoJumps(code) && pc <= |code|
    ensures Exec(code, facts, sets, pc, stack) == Run(code[pc..], facts, sets, stack)
    decreases |code| - pc
  {
    if pc < |code| {
      assert code[pc..][1..] == code[pc + 1..];
      var s := Step(code[pc], facts, sets, stack);
      if s.Some? {
        ExecIsRun(code, facts, sets, pc + 1, s.value);
      }
    }
  }
}
