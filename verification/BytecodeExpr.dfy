/** Condition expressions and what they mean over named facts, without ids, sets or stacks: the meaning is that of the
    library's evaluator of conditions, whose operators are those of value_helpers.go. */
module BytecodeExpr {
  import opened Wrappers
  import Text

  /** `math.Float64bits` and `strconv.ParseFloat`, and whether the facts answer a path, be it with nil or a map. */
  datatype Lib = Lib(floatBits: real -> int, parseFloat: string -> Option<real>, found: string -> bool)

  datatype Literal = LNull | LBool(b: bool) | LInt(i: int) | LFloat(f: real) | LString(s: string)

  /** The interpreter's syntax tree. `Path` stands for identifiers, dotted and indexed paths, already joined. */
  datatype Expr =
    | Infix(op: string, left: Expr, right: Expr)
    | Prefix(op: string, operand: Expr)
    | Call(name: Option<string>, args: seq<Expr>)
    | Path(path: string)
    | Lit(value: Literal)
    | ArrayLit(items: seq<Expr>)
    | OtherExpr

  /** A time is its Unix seconds, its text as `String` gives it, and its RFC 3339 text. */
  datatype FactValue =
    | FNil | FInt(int) | FFloat(real) | FString(s: string) | FBool(bool)
    | FTime(seconds: int, shown: string, stamp: string)

  type Facts = map<string, FactValue>

  /** Absent and nil facts are both missing. */
  function Lookup(env: Option<Facts>, path: string): Option<FactValue> {
    if env.Some? && path in env.value && env.value[path] != FNil then Some(env.value[path]) else None
  }

  function Truthy(v: Literal): bool {
    match v
    case LNull => false
    case LBool(b) => b
    case LInt(i) => i != 0
    case LFloat(f) => f != 0.0
    case LString(s) => s != ""
  }

  /** `asFloat` on a literal: numbers, and strings that are written as numbers. */
  function LitNumber(lit: Literal, lib: Lib): Option<real> {
    match lit
    case LInt(i) => Some(i as real)
    case LFloat(f) => Some(f)
    case LString(s) => lib.parseFloat(s)
    case _ => None
  }

  /** `literalNumber`. */
  function LiteralNumber(e: Expr, lib: Lib): Option<real> {
    if e.Lit? then LitNumber(e.value, lib) else None
  }

  /** `literalArrayValues`. */
  function LiteralArray(e: Expr): Option<seq<Literal>> {
    if e.ArrayLit? && forall k :: 0 <= k < |e.items| ==> e.items[k].Lit? then
      Some(seq(|e.items|, k requires 0 <= k < |e.items| => e.items[k].value))
    else None
  }

  // ---------- comparisons ----------

  function CmpInt(a: int, b: int): int {
    if a < b then -1 else if a > b then 1 else 0
  }

  function CmpReal(a: real, b: real): int {
    if a < b then -1 else if a > b then 1 else 0
  }

  function CmpString(a: string, b: string): int {
    if Text.Less(a, b) then -1 else if a == b then 0 else 1
  }

  function BoolInt(b: bool): int {
    if b then 1 else 0
  }

  predicate IsRelation(op: string) {
    op == "==" || op == "!=" || op == ">" || op == ">=" || op == "<" || op == "<="
  }

  predicate Relation(op: string, cmp: int) {
    if op == "==" then cmp == 0
    else if op == "!=" then cmp != 0
    else if op == ">" then cmp > 0
    else if op == ">=" then cmp >= 0
    else if op == "<" then cmp < 0
    else op == "<=" && cmp <= 0
  }

  // ---------- values as conditions see them ----------

  /** `asFloat` on a fact. A time is no number. */
  function Number(v: FactValue, lib: Lib): Option<real> {
    match v
    case FInt(x) => Some(x as real)
    case FFloat(x) => Some(x)
    case FString(s) => lib.parseFloat(s)
    case _ => None
  }

  predicate SameValue(v: FactValue, lit: Literal) {
    match (v, lit)
    case (FString(s), LString(t)) => s == t
    case (FBool(b), LBool(c)) => b == c
    case _ => false
  }

  /** `equal`: as numbers if both are, else as values; an absent fact equals null alone. */
  predicate Equal(v: Option<FactValue>, lit: Literal, lib: Lib) {
    if v.None? then lit.LNull?
    else
      var n, m := Number(v.value, lib), LitNumber(lit, lib);
      if n.Some? && m.Some? then n.value == m.value else SameValue(v.value, lit)
  }

  /** `asString` on a fact: strings, and times by their text. */
  function TextOf(v: FactValue): Option<string> {
    match v
    case FString(s) => Some(s)
    case FTime(_, shown, _) => Some(shown)
    case _ => None
  }

  /** `compare`: as numbers if both are, else as texts if both are; nothing else is ordered. */
  function Compared(v: Option<FactValue>, lit: Literal, lib: Lib): Option<int> {
    if v.None? then None
    else
      var n, m := Number(v.value, lib), LitNumber(lit, lib);
      if n.Some? && m.Some? then Some(CmpReal(n.value, m.value))
      else if TextOf(v.value).Some? && lit.LString? then Some(CmpString(TextOf(v.value).value, lit.s))
      else None
  }

  /** `!=` is the negation of `==`; an ordering of values that are not ordered does not hold. */
  predicate CompareMeaning(op: string, v: Option<FactValue>, lit: Literal, lib: Lib) {
    if op == "==" then Equal(v, lit, lib)
    else if op == "!=" then !Equal(v, lit, lib)
    else Compared(v, lit, lib).Some? && Relation(op, Compared(v, lit, lib).value)
  }

  /** `contains` on a literal array. */
  predicate InMeaning(v: Option<FactValue>, values: seq<Literal>, lib: Lib) {
    exists k :: 0 <= k < |values| && Equal(v, values[k], lib)
  }

  /** What a function is called with: times arrive as their RFC 3339 text. */
  function Argument(v: Option<FactValue>): Option<FactValue> {
    if v.Some? && v.value.FTime? then Some(FString(v.value.stamp)) else v
  }

  /** `between`. */
  predicate BetweenMeaning(v: Option<FactValue>, min: Literal, max: Literal, lib: Lib) {
    var lo, hi := Compared(Argument(v), min, lib), Compared(Argument(v), max, lib);
    lo.Some? && hi.Some? && lo.value >= 0 && hi.value <= 0
  }

  /** `exists`: its argument is the fact at the path, and that fact, which must be a string, is the path looked up.
      Anything else is an error. */
  function ExistsMeaning(v: Option<FactValue>, lib: Lib): Option<bool> {
    match Argument(v)
    case Some(FString(s)) => Some(lib.found(s))
    case _ => None
  }

  /** What an expression means over named facts. */
  predicate Meaning(e: Expr, env: Option<Facts>, lib: Lib) {
    match e
    case Infix(op, l, r) =>
      if op == "&&" then Meaning(l, env, lib) && Meaning(r, env, lib)
      else if op == "||" then Meaning(l, env, lib) || Meaning(r, env, lib)
      else if !l.Path? then false
      else if op == "in" then LiteralArray(r).Some? && InMeaning(Lookup(env, l.path), LiteralArray(r).value, lib)
      else if op == "not in" then LiteralArray(r).Some? && !InMeaning(Lookup(env, l.path), LiteralArray(r).value, lib)
      else r.Lit? && CompareMeaning(op, Lookup(env, l.path), r.value, lib)
    case Prefix(op, x) => op == "!" && !Meaning(x, env, lib)
    case Call(name, args) =>
      if name.None? then false
      else if name.value == "exists" then
        |args| == 1 && args[0].Path? && ExistsMeaning(Lookup(env, args[0].path), lib) == Some(true)
      else if name.value == "between" then
        && |args| == 3 && args[0].Path? && args[1].Lit? && args[2].Lit?
        && BetweenMeaning(Lookup(env, args[0].path), args[1].value, args[2].value, lib)
      else false
    case Lit(v) => Truthy(v)
    case _ => false
  }
}
