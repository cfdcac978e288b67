/** Nested `all`, `any` and `not` blocks and the and/or/not text they are turned into (bcl/bcl.go). */
module BclCondition {
  import opened Wrappers

  datatype Kind = All | Any | Not

  /** A line of its own or a block of items. */
  datatype Item = Line(text: string) | Block(kind: Kind, items: seq<Item>)

  // ---------- white space ----------

  predicate Space(c: char) {
    c in " \t\n\r" || c as int in {0x0B, 0x0C, 0x85, 0xA0, 0x1680, 0x2028, 0x2029, 0x202F, 0x205F, 0x3000}
    || 0x2000 <= c as int <= 0x200A
  }

  /** `strings.TrimSpace`. */
  function Trim(s: string): string
    decreases |s|
  {
    if s == [] then []
    else if Space(s[0]) then Trim(s[1..])
    else if Space(s[|s| - 1]) then Trim(s[..|s| - 1])
    else s
  }

  predicate Trimmed(s: string) {
    s != [] && !Space(s[0]) && !Space(s[|s| - 1])
  }

  predicate Blank(s: string) {
    forall k :: 0 <= k < |s| ==> Space(s[k])
  }

  /** Trimming takes white space off both ends, and everything of a blank text. */
  lemma {:induction false} TrimExactly(before: string, s: string, after: string)
    requires Blank(before) && Blank(after) && (s == "" || Trimmed(s))
    ensures Trim(before + s + after) == s
    decreases |before| + |after|
  {
    var whole := before + s + after;
    if before != "" {
      assert whole[1..] == before[1..] + s + after;
      TrimExactly(before[1..], s, after);
    } else if after != "" {
      var n := |after| - 1;
      assert whole[..|whole| - 1] == before + s + after[..n] && whole[|whole| - 1] == after[n];
      if s == "" {
        assert whole[1..] == before + s + after[1..];
        TrimExactly(before, s, after[1..]);
      } else {
        TrimExactly(before, s, after[..n]);
      }
    } else {
      assert whole == s;
    }
  }

  // ---------- joining ----------

  function Paren(a: string): string {
    "(" + a + ")"
  }

  function Negated(a: string): string {
    "not (" + a + ")"
  }

  function Infix(a: string, op: string, b: string): string {
    a + " " + op + " " + b
  }

  /** The expressions that are not blank, trimmed. */
  function Filtered(exprs: seq<string>): (r: seq<string>)
    ensures |r| <= |exprs|
  {
    if exprs == [] then []
    else (if Trim(exprs[0]) == [] then [] else [Trim(exprs[0])]) + Filtered(exprs[1..])
  }

  function Chain(exprs: seq<string>, op: string): string
    requires exprs != []
  {
    if |exprs| == 1 then Paren(exprs[0]) else Infix(Paren(exprs[0]), op, Chain(exprs[1..], op))
  }

  /** `joinBCLConditions`: one expression stays as it is, several are put in parentheses. */
  function Join(exprs: seq<string>, op: string): string {
    var f := Filtered(exprs);
    if f == [] then "" else if |f| == 1 then f[0] else Chain(f, op)
  }

  lemma {:induction false} FilteredAppend(a: seq<string>, x: string)
    ensures Filtered(a + [x]) == Filtered(a) + if Trim(x) == [] then [] else [Trim(x)]
  {
    if a == [] {
      assert a + [x] == [x] && [x][1..] == [];
    } else {
      assert (a + [x])[1..] == a[1..] + [x];
      FilteredAppend(a[1..], x);
    }
  }

  /** A chain written from its first expression on. */
  function Written(exprs: seq<string>, op: string): string
    decreases |exprs|
  {
    if exprs == [] then ""
    else if |exprs| == 1 then Paren(exprs[0])
    else Written(exprs[..|exprs| - 1], op) + " " + op + " " + Paren(exprs[|exprs| - 1])
  }

  lemma {:induction false} WrittenChain(exprs: seq<string>, op: string)
    requires exprs != []
    ensures Written(exprs, op) == Chain(exprs, op)
    decreases |exprs|
  {
    var n := |exprs| - 1;
    if n == 1 {
      assert exprs[..1] == [exprs[0]] && exprs[1..] == [exprs[1]];
    } else if n > 1 {
      WrittenChain(exprs[..n], op);
      WrittenChain(exprs[1..], op);
      WrittenChain(exprs[1..n], op);
      assert exprs[..n][1..] == exprs[1..n] && exprs[1..][..n - 1] == exprs[1..n];
      var first, middle, last := Paren(exprs[0]), Chain(exprs[1..n], op), Paren(exprs[n]);
      assert (first + " " + op + " " + middle) + " " + op + " " + last
             == first + " " + op + " " + (middle + " " + op + " " + last);
    }
  }

  method JoinConditions(exprs: seq<string>, op: string) returns (r: string)
    ensures r == Join(exprs, op)
  {
    assert Filtered([]) == [] && Written([], op) == [];
    hide Filtered, Trim, Chain, Written;
    var filtered := [];
    assert exprs[..0] == [];
    for i := 0 to |exprs|
      invariant filtered == Filtered(exprs[..i])
    {
      var expr := Trim(exprs[i]);
      FilteredAppend(exprs[..i], exprs[i]);
      assert exprs[..i + 1] == exprs[..i] + [exprs[i]];
      if expr != [] {
        filtered := filtered + [expr];
      }
    }
    assert exprs[..|exprs|] == exprs;
    if |filtered| == 0 {
      return "";
    }
    if |filtered| == 1 {
      return filtered[0];
    }
    r := "";
    assert filtered[..0] == [];
    for i := 0 to |filtered|
      invariant r == Written(filtered[..i], op)
    {
      WrittenStep(filtered, i, op);
      if i > 0 {
        r := r + " " + op + " ";
      }
      r := r + Paren(filtered[i]);
    }
    assert filtered[..|filtered|] == filtered;
    WrittenChain(filtered, op);
  }

  lemma WrittenStep(exprs: seq<string>, i: nat, op: string)
    requires i < |exprs|
    ensures Written(exprs[..i + 1], op)
            == (if i == 0 then "" else Written(exprs[..i], op) + " " + op + " ") + Paren(exprs[i])
  {
    assert exprs[..i + 1][..i] == exprs[..i];
  }

  // ---------- parsing lines ----------

  const CLOSE := "}"

  function Header(k: Kind): string {
    match k case All => "all {" case Any => "any {" case Not => "not {"
  }

  function Mode(k: Kind): string {
    if k == Any then "or" else "and"
  }

  /** What a block leaves among its parent's expressions. */
  function Result(k: Kind, child: string): seq<string> {
    if child == "" then [] else if k == Not then [Negated(child)] else [child]
  }

  function KindOf(line: string): Option<Kind> {
    if line == Header(All) then Some(All) else if line == Header(Any) then Some(Any)
    else if line == Header(Not) then Some(Not) else None
  }

  /** `parseBCLConditionLines` with the expressions collected so far. */
  function ParseLines(lines: seq<string>, pos: nat, exprs: seq<string>, mode: string): (r: (string, nat))
    requires pos <= |lines|
    ensures pos <= r.1 <= |lines| && (pos < |lines| ==> pos < r.1)
    decreases |lines| - pos
  {
    if pos == |lines| then (Join(exprs, mode), pos)
    else if lines[pos] == CLOSE then (Join(exprs, mode), pos + 1)
    else if KindOf(lines[pos]).Some? then
      var k := KindOf(lines[pos]).value;
      var (child, next) := ParseLines(lines, pos + 1, [], Mode(k));
      ParseLines(lines, next, exprs + Result(k, child), mode)
    else ParseLines(lines, pos + 1, exprs + [lines[pos]], mode)
  }

  /** One turn of the loop over the lines. */
  lemma ParseStep(lines: seq<string>, pos: nat, exprs: seq<string>, mode: string)
    requires pos < |lines|
    ensures var line := lines[pos];
            if line == CLOSE then ParseLines(lines, pos, exprs, mode) == (Join(exprs, mode), pos + 1)
            else if KindOf(line).Some? then
              var k := KindOf(line).value;
              var (child, next) := ParseLines(lines, pos + 1, [], Mode(k));
              pos < next && ParseLines(lines, pos, exprs, mode)
                  == ParseLines(lines, next, exprs + Result(k, child), mode)
            else ParseLines(lines, pos, exprs, mode) == ParseLines(lines, pos + 1, exprs + [line], mode)
  {
    hide Join, KindOf;
  }

  lemma ParseEnd(lines: seq<string>, exprs: seq<string>, mode: string)
    ensures ParseLines(lines, |lines|, exprs, mode) == (Join(exprs, mode), |lines|)
  {
    hide Join;
  }

  method ParseConditionLines(lines: seq<string>, start: nat, mode: string) returns (text: string, next: nat)
    requires start <= |lines|
    ensures text == ParseLines(lines, start, [], mode).0 && next == ParseLines(lines, start, [], mode).1
    decreases |lines| - start
  {
    hide ParseLines, Join, KindOf, Mode, Negated;
    var exprs, pos := [], start;
    while pos < |lines|
      invariant start <= pos <= |lines| && ParseLines(lines, pos, exprs, mode) == ParseLines(lines, start, [], mode)
      decreases |lines| - pos
    {
      var line := lines[pos];
      ParseStep(lines, pos, exprs, mode);
      assert exprs + [] == exprs;
      if line == CLOSE {
        text := JoinConditions(exprs, mode);
        return text, pos + 1;
      }
      match KindOf(line)
      case Some(k) =>
        var child;
        child, pos := ParseConditionLines(lines, pos + 1, Mode(k));
        if child != "" {
          exprs := exprs + [if k == Not then Negated(child) else child];
        }
      case None =>
        exprs := exprs + [line];
        pos := pos + 1;
    }
    ParseEnd(lines, exprs, mode);
    text := JoinConditions(exprs, mode);
    next := pos;
  }

  // ---------- the text of a tree ----------

  function Lines(items: seq<Item>): seq<string>
    decreases items
  {
    if items == [] then [] else ItemLines(items[0]) + Lines(items[1..])
  }

  function ItemLines(item: Item): seq<string>
    decreases item
  {
    match item
    case Line(text) => [text]
    case Block(k, items) => [Header(k)] + Lines(items) + [CLOSE]
  }

  function Exprs(items: seq<Item>): seq<string>
    decreases items
  {
    if items == [] then [] else ItemExprs(items[0]) + Exprs(items[1..])
  }

  function ItemExprs(item: Item): seq<string>
    decreases item
  {
    match item
    case Line(text) => [text]
    case Block(k, items) => Result(k, Join(Exprs(items), Mode(k)))
  }

  /** A line that is trimmed and holds no brace. */
  predicate LeafLine(s: string) {
    Trimmed(s) && '{' !in s && '}' !in s && '\n' !in s
  }

  predicate LeafLines(items: seq<Item>)
    decreases items
  {
    forall k :: 0 <= k < |items| ==> LeafItem(items[k])
  }

  predicate LeafItem(item: Item)
    decreases item
  {
    match item
    case Line(text) => LeafLine(text)
    case Block(_, items) => LeafLines(items)
  }

  lemma LeafIsNoBrace(s: string)
    requires LeafLine(s)
    ensures s != CLOSE && KindOf(s).None?
  {
    assert CLOSE[0] == '}';
    assert forall k :: Header(k)[4] == '{';
  }

  lemma HeaderKind(k: Kind)
    ensures KindOf(Header(k)) == Some(k) && Header(k) != CLOSE
  {
    assert Header(All)[1] == 'l' && Header(Any)[0] == 'a' && Header(Any)[1] == 'n' && Header(Not)[0] == 'n';
  }

  /** Reading a tree's lines yields its expressions, and every call returns the position just past the brace that
      matches its own, or the end of the lines. */
  lemma {:induction false} LinesParse(lines: seq<string>, pos: nat, end: nat, items: seq<Item>, exprs: seq<string>,
                                      mode: string)
    requires pos <= end <= |lines| && lines[pos..end] == Lines(items) && LeafLines(items)
    requires end < |lines| ==> lines[end] == CLOSE
    ensures ParseLines(lines, pos, exprs, mode)
            == (Join(exprs + Exprs(items), mode), if end == |lines| then end else end + 1)
    decreases items
  {
    hide Join, ParseLines, ItemLines, ItemExprs, LeafItem;
    if items == [] {
      assert exprs + Exprs(items) == exprs;
      if pos < |lines| {
        ParseStep(lines, pos, exprs, mode);
      } else {
        ParseEnd(lines, exprs, mode);
      }
    } else {
      var mid, left := pos + |ItemLines(items[0])|, ItemExprs(items[0]);
      PartSplit(lines, pos, end, ItemLines(items[0]), Lines(items[1..]));
      ItemParses(lines, pos, mid, items[0], exprs, mode);
      LinesParse(lines, mid, end, items[1..], exprs + left, mode);
      assert exprs + left + Exprs(items[1..]) == exprs + (left + Exprs(items[1..]));
    }
  }

  /** Where braces are missing at the end of the lines, closing one changes no text: a block that is not closed ends
      with the lines. */
  lemma {:induction false} MissingBrace(lines: seq<string>, pos: nat, exprs: seq<string>, mode: string)
    requires pos <= |lines|
    ensures var (r, s) := (ParseLines(lines, pos, exprs, mode), ParseLines(lines + [CLOSE], pos, exprs, mode));
            s.0 == r.0 && (s.1 == r.1 || (r.1 == |lines| && s.1 == |lines| + 1))
    decreases |lines| - pos
  {
    hide Join, ParseLines, KindOf, Mode, Result;
    var closed := lines + [CLOSE];
    ParseStep(closed, pos, exprs, mode);
    if pos == |lines| {
      ParseEnd(lines, exprs, mode);
    } else {
      ParseStep(lines, pos, exprs, mode);
      assert closed[pos] == lines[pos];
      if lines[pos] != CLOSE && KindOf(lines[pos]).Some? {
        var k := KindOf(lines[pos]).value;
        var (child, next) := ParseLines(lines, pos + 1, [], Mode(k));
        MissingBrace(lines, pos + 1, [], Mode(k));
        MissingBrace(lines, next, exprs + Result(k, child), mode);
        if next == |lines| {
          ParseEnd(lines, exprs + Result(k, child), mode);
          ParseStep(closed, next, exprs + Result(k, child), mode);
          ParseEnd(closed, exprs + Result(k, child), mode);
        }
      } else if lines[pos] != CLOSE {
        MissingBrace(lines, pos + 1, exprs + [lines[pos]], mode);
      }
    }
  }

  /** One item is read up to its last line. */
  lemma {:induction false} ItemParses(lines: seq<string>, pos: nat, mid: nat, item: Item, exprs: seq<string>,
                                      mode: string)
    requires pos <= mid <= |lines| && lines[pos..mid] == ItemLines(item) && LeafItem(item)
    ensures ParseLines(lines, pos, exprs, mode) == ParseLines(lines, mid, exprs + ItemExprs(item), mode)
    decreases item
  {
    hide Join, Header, KindOf, LeafLine, ParseLines, Lines, Exprs;
    assert lines[pos] == lines[pos..mid][0];
    ParseStep(lines, pos, exprs, mode);
    match item
    case Line(text) =>
      LeafIsNoBrace(text);
    case Block(k, inner) =>
      HeaderKind(k);
      BlockLines(lines, pos, mid, k, inner);
      LinesParse(lines, pos + 1, mid - 1, inner, [], Mode(k));
      assert [] + Exprs(inner) == Exprs(inner);
  }

  lemma BlockLines(lines: seq<string>, pos: nat, mid: nat, k: Kind, inner: seq<Item>)
    requires pos <= mid <= |lines| && lines[pos..mid] == [Header(k)] + Lines(inner) + [CLOSE]
    ensures pos + 2 <= mid && lines[pos] == Header(k) && lines[pos + 1..mid - 1] == Lines(inner)
            && lines[mid - 1] == CLOSE
  {
    PartSplit(lines, pos, mid, [Header(k)] + Lines(inner), [CLOSE]);
    PartSplit(lines, pos, mid - 1, [Header(k)], Lines(inner));
    assert lines[pos..pos + 1][0] == lines[pos] && lines[mid - 1..mid][0] == lines[mid - 1];
  }

  lemma PartSplit(lines: seq<string>, pos: nat, end: nat, a: seq<string>, b: seq<string>)
    requires pos <= end <= |lines| && lines[pos..end] == a + b
    ensures end == pos + |a| + |b| && lines[pos..pos + |a|] == a && lines[pos + |a|..end] == b
  {
    assert lines[pos..pos + |a|] == lines[pos..end][..|a|] == a;
    assert lines[pos + |a|..end] == lines[pos..end][|a|..] == b;
  }

  // ---------- reading the text back ----------

  datatype Tok = Open | Close | And | Or | Negate | Atom(name: nat)

  type Read = Option<(bool, seq<Tok>)>

  /** The grammar of conditions: `or` below `and` below `not`, with parentheses and atoms. */
  function ReadOr(ts: seq<Tok>, env: nat -> bool): (r: Read)
    ensures r.Some? ==> |r.value.1| < |ts|
    decreases |ts|, 3
  {
    var l := ReadAnd(ts, env);
    if l.None? || l.value.1 == [] || l.value.1[0] != Or then l
    else
      var r := ReadOr(l.value.1[1..], env);
      if r.None? then None else Some((l.value.0 || r.value.0, r.value.1))
  }

  function ReadAnd(ts: seq<Tok>, env: nat -> bool): (r: Read)
    ensures r.Some? ==> |r.value.1| < |ts|
    decreases |ts|, 2
  {
    var l := ReadNot(ts, env);
    if l.None? || l.value.1 == [] || l.value.1[0] != And then l
    else
      var r := ReadAnd(l.value.1[1..], env);
      if r.None? then None else Some((l.value.0 && r.value.0, r.value.1))
  }

  function ReadNot(ts: seq<Tok>, env: nat -> bool): (r: Read)
    ensures r.Some? ==> |r.value.1| < |ts|
    decreases |ts|, 1
  {
    if ts == [] then None
    else if ts[0] == Negate then
      var r := ReadNot(ts[1..], env);
      if r.None? then None else Some((!r.value.0, r.value.1))
    else if ts[0] == Open then
      var r := ReadOr(ts[1..], env);
      if r.None? || r.value.1 == [] || r.value.1[0] != Close then None else Some((r.value.0, r.value.1[1..]))
    else if ts[0].Atom? then Some((env(ts[0].name), ts[1..]))
    else None
  }

  /** What is read does not change when a closing parenthesis and more follows. */
  lemma {:induction false} OrExtends(ts: seq<Tok>, s: seq<Tok>, env: nat -> bool)
    requires ReadOr(ts, env).Some? && s != [] && s[0] == Close
    ensures ReadOr(ts + s, env) == Some((ReadOr(ts, env).value.0, ReadOr(ts, env).value.1 + s))
    decreases |ts|, 3
  {
    AndExtends(ts, s, env);
    var rest := ReadAnd(ts, env).value.1;
    if rest != [] && rest[0] == Or {
      assert (rest + s)[1..] == rest[1..] + s;
      OrExtends(rest[1..], s, env);
    }
  }

  lemma {:induction false} AndExtends(ts: seq<Tok>, s: seq<Tok>, env: nat -> bool)
    requires ReadAnd(ts, env).Some? && s != [] && s[0] == Close
    ensures ReadAnd(ts + s, env) == Some((ReadAnd(ts, env).value.0, ReadAnd(ts, env).value.1 + s))
    decreases |ts|, 2
  {
    NotExtends(ts, s, env);
    var rest := ReadNot(ts, env).value.1;
    if rest != [] && rest[0] == And {
      assert (rest + s)[1..] == rest[1..] + s;
      AndExtends(rest[1..], s, env);
    }
  }

  lemma {:induction false} NotExtends(ts: seq<Tok>, s: seq<Tok>, env: nat -> bool)
    requires ReadNot(ts, env).Some? && s != [] && s[0] == Close
    ensures ReadNot(ts + s, env) == Some((ReadNot(ts, env).value.0, ReadNot(ts, env).value.1 + s))
    decreases |ts|, 1
  {
    assert (ts + s)[1..] == ts[1..] + s;
    if ts[0] == Negate {
      NotExtends(ts[1..], s, env);
    } else if ts[0] == Open {
      OrExtends(ts[1..], s, env);
      var rest := ReadOr(ts[1..], env).value.1;
      assert (rest + s)[1..] == rest[1..] + s;
    }
  }

  /** How the expression lexer splits a text into tokens; `complete` texts are those with nothing left open. */
  datatype Lexer = Lexer(tokens: string -> seq<Tok>, complete: string -> bool)

  /** Parentheses and connectives around complete texts are read as such. */
  ghost predicate Sound(lexer: Lexer) {
    && (forall a {:trigger Paren(a)} :: lexer.complete(a) ==>
          lexer.complete(Paren(a)) && lexer.tokens(Paren(a)) == [Open] + lexer.tokens(a) + [Close])
    && (forall a {:trigger Negated(a)} :: lexer.complete(a) ==>
          lexer.complete(Negated(a)) && lexer.tokens(Negated(a)) == [Negate, Open] + lexer.tokens(a) + [Close])
    && (forall a, op, b {:trigger Infix(a, op, b)} :: 
          lexer.complete(a) && lexer.complete(b) && (op == "and" || op == "or") ==>
          lexer.complete(Infix(a, op, b))
          && lexer.tokens(Infix(a, op, b)) == lexer.tokens(a) + [if op == "and" then And else Or] + lexer.tokens(b))
  }

  /** The truth value of a whole text. */
  function ValueOf(text: string, lexer: Lexer, env: nat -> bool): Option<bool> {
    var r := ReadOr(lexer.tokens(text), env);
    if r.Some? && r.value.1 == [] && lexer.complete(text) then Some(r.value.0) else None
  }

  // ---------- meaning ----------

  function Combine(a: Option<bool>, b: Option<bool>, mode: string): Option<bool> {
    if a.None? then b else if b.None? then a
    else Some(if mode == "or" then a.value || b.value else a.value && b.value)
  }

  /** The meaning of a tree over the values of its lines. A block with nothing in it counts for nothing. */
  function Meaning(items: seq<Item>, mode: string, lexer: Lexer, env: nat -> bool): Option<bool>
    decreases items
  {
    if items == [] then None
    else Combine(ItemMeaning(items[0], lexer, env), Meaning(items[1..], mode, lexer, env), mode)
  }

  function ItemMeaning(item: Item, lexer: Lexer, env: nat -> bool): Option<bool>
    decreases item
  {
    match item
    case Line(text) => ValueOf(text, lexer, env)
    case Block(k, items) =>
      var m := Meaning(items, Mode(k), lexer, env);
      if k == Not && m.Some? then Some(!m.value) else m
  }

  /** Every line is a condition of its own: it reads as one, in full. */
  predicate Readable(items: seq<Item>, lexer: Lexer, env: nat -> bool)
    decreases items
  {
    forall k :: 0 <= k < |items| ==> ReadableItem(items[k], lexer, env)
  }

  predicate ReadableItem(item: Item, lexer: Lexer, env: nat -> bool)
    decreases item
  {
    match item
    case Line(text) => ValueOf(text, lexer, env).Some?
    case Block(_, items) => Readable(items, lexer, env)
  }

  // ---------- the text means what the tree means ----------

  lemma ParenReads(a: string, rest: seq<Tok>, lexer: Lexer, env: nat -> bool)
    requires Sound(lexer) && ValueOf(a, lexer, env).Some?
    ensures lexer.complete(Paren(a))
    ensures ReadNot(lexer.tokens(Paren(a)) + rest, env) == Some((ValueOf(a, lexer, env).value, rest))
  {
    hide ReadOr;
    var ts := lexer.tokens(a);
    var inner := ts + ([Close] + rest);
    OrExtends(ts, [Close] + rest, env);
    assert [] + ([Close] + rest) == [Close] + rest;
    var p := lexer.tokens(Paren(a)) + rest;
    assert p == [Open] + inner && p[1..] == inner && ([Close] + rest)[1..] == rest;
  }

  lemma NegatedReads(a: string, lexer: Lexer, env: nat -> bool)
    requires Sound(lexer) && ValueOf(a, lexer, env).Some?
    ensures Trimmed(Negated(a)) && ValueOf(Negated(a), lexer, env) == Some(!ValueOf(a, lexer, env).value)
  {
    hide ReadOr, ReadAnd;
    ParenReads(a, [], lexer, env);
    var p, n := lexer.tokens(Paren(a)), lexer.tokens(Negated(a));
    assert p + [] == p && n == [Negate] + p && n[1..] == p by {
      assert Negated(a) == Negated(a) && Paren(a) == Paren(a);
    }
    OnlyNot(n, env);
    assert Negated(a)[0] == 'n' && Negated(a)[|Negated(a)| - 1] == ')';
  }

  lemma OnlyNot(ts: seq<Tok>, env: nat -> bool)
    requires ReadNot(ts, env).Some? && ReadNot(ts, env).value.1 == []
    ensures ReadAnd(ts, env) == ReadNot(ts, env) && ReadOr(ts, env) == ReadNot(ts, env)
  {
    hide ReadNot;
  }

  /** Two operands of one operator. */
  lemma OperatorReads(ts: seq<Tok>, op: Tok, rest: seq<Tok>, v: bool, w: bool, env: nat -> bool)
    requires ReadNot(ts, env) == Some((v, [op] + rest))
    requires (op == And && ReadAnd(rest, env) == Some((w, []))) || (op == Or && ReadOr(rest, env) == Some((w, [])))
    ensures ReadOr(ts, env) == Some((if op == And then v && w else v || w, []))
    ensures op == And ==> ReadAnd(ts, env) == ReadOr(ts, env)
  {
    hide ReadNot;
    assert ([op] + rest)[1..] == rest;
    if op == And {
      assert ReadAnd(ts, env) == Some((v && w, []));
    } else {
      assert ReadAnd(ts, env) == ReadNot(ts, env);
    }
  }

  /** The values of several expressions, combined. */
  function Combined(exprs: seq<string>, mode: string, lexer: Lexer, env: nat -> bool): Option<bool> {
    if exprs == [] then None
    else Combine(ValueOf(exprs[0], lexer, env), Combined(exprs[1..], mode, lexer, env), mode)
  }

  predicate AllRead(exprs: seq<string>, lexer: Lexer, env: nat -> bool) {
    forall k :: 0 <= k < |exprs| ==> ValueOf(exprs[k], lexer, env).Some? && Trimmed(exprs[k])
  }

  lemma {:induction false} ChainReads(exprs: seq<string>, mode: string, lexer: Lexer, env: nat -> bool)
    requires Sound(lexer) && AllRead(exprs, lexer, env) && exprs != [] && (mode == "and" || mode == "or")
    ensures ValueOf(Chain(exprs, mode), lexer, env) == Combined(exprs, mode, lexer, env)
    ensures mode == "and" ==>
              ReadAnd(lexer.tokens(Chain(exprs, mode)), env) == Some((Combined(exprs, mode, lexer, env).value, []))
    decreases |exprs|
  {
    hide ReadNot, ReadAnd, ReadOr, Sound;
    var first, rest := exprs[0], exprs[1..];
    if |exprs| == 1 {
      ParenReads(first, [], lexer, env);
      assert lexer.tokens(Paren(first)) + [] == lexer.tokens(Paren(first));
      OnlyNot(lexer.tokens(Paren(first)), env);
    } else {
      ChainReads(rest, mode, lexer, env);
      var op, ts := if mode == "and" then And else Or, lexer.tokens(Chain(rest, mode));
      ParenReads(first, [op] + ts, lexer, env);
      InfixReads(Paren(first), mode, Chain(rest, mode), lexer);
      assert lexer.tokens(Chain(exprs, mode)) == lexer.tokens(Paren(first)) + ([op] + ts);
      OperatorReads(lexer.tokens(Chain(exprs, mode)), op, ts, ValueOf(first, lexer, env).value,
                    Combined(rest, mode, lexer, env).value, env);
    }
  }

  lemma InfixReads(a: string, op: string, b: string, lexer: Lexer)
    requires Sound(lexer) && lexer.complete(a) && lexer.complete(b) && (op == "and" || op == "or")
    ensures lexer.complete(Infix(a, op, b))
    ensures lexer.tokens(Infix(a, op, b)) == lexer.tokens(a) + [if op == "and" then And else Or] + lexer.tokens(b)
  {
  }

  lemma {:induction false} FilteredTrimmed(exprs: seq<string>)
    requires forall k :: 0 <= k < |exprs| ==> Trimmed(exprs[k])
    ensures Filtered(exprs) == exprs
  {
    if exprs != [] {
      FilteredTrimmed(exprs[1..]);
      assert exprs == [exprs[0]] + exprs[1..];
    }
  }

  lemma JoinReads(exprs: seq<string>, mode: string, lexer: Lexer, env: nat -> bool)
    requires Sound(lexer) && AllRead(exprs, lexer, env) && (mode == "and" || mode == "or")
    ensures if exprs == [] then Join(exprs, mode) == ""
            else && Trimmed(Join(exprs, mode))
                 && ValueOf(Join(exprs, mode), lexer, env) == Combined(exprs, mode, lexer, env)
  {
    hide ValueOf, Sound;
    FilteredTrimmed(exprs);
    if |exprs| == 1 {
      assert exprs[1..] == [];
    } else if exprs != [] {
      ChainReads(exprs, mode, lexer, env);
      ChainTrimmed(exprs, mode);
    }
  }

  lemma {:induction false} ChainTrimmed(exprs: seq<string>, op: string)
    requires exprs != []
    ensures var c := Chain(exprs, op); Trimmed(c) && c[0] == '(' && c[|c| - 1] == ')'
    decreases |exprs|
  {
    if |exprs| > 1 {
      ChainTrimmed(exprs[1..], op);
    }
  }

  lemma {:induction false} CombinedAppend(a: seq<string>, b: seq<string>, mode: string, lexer: Lexer, env: nat -> bool)
    ensures Combined(a + b, mode, lexer, env)
            == Combine(Combined(a, mode, lexer, env), Combined(b, mode, lexer, env), mode)
    decreases |a|
  {
    if a == [] {
      assert a + b == b;
    } else {
      assert (a + b)[1..] == a[1..] + b;
      CombinedAppend(a[1..], b, mode, lexer, env);
    }
  }

  /** The expressions of a tree read as the tree's items. */
  lemma {:induction false} ExprsRead(items: seq<Item>, mode: string, lexer: Lexer, env: nat -> bool)
    requires Sound(lexer) && Readable(items, lexer, env) && LeafLines(items)
    ensures AllRead(Exprs(items), lexer, env)
            && Combined(Exprs(items), mode, lexer, env) == Meaning(items, mode, lexer, env)
    decreases items
  {
    hide ValueOf, Sound, LeafItem, ReadableItem, ItemExprs, ItemMeaning;
    if items != [] {
      ItemReads(items[0], mode, lexer, env);
      ExprsRead(items[1..], mode, lexer, env);
      CombinedAppend(ItemExprs(items[0]), Exprs(items[1..]), mode, lexer, env);
    }
  }

  lemma {:induction false} ItemReads(item: Item, mode: string, lexer: Lexer, env: nat -> bool)
    requires Sound(lexer) && ReadableItem(item, lexer, env) && LeafItem(item)
    ensures AllRead(ItemExprs(item), lexer, env)
            && Combined(ItemExprs(item), mode, lexer, env) == ItemMeaning(item, lexer, env)
    decreases item
  {
    hide ValueOf, Sound, Join;
    match item
    case Line(text) =>
      assert [text][1..] == [];
    case Block(k, items) =>
      ExprsRead(items, Mode(k), lexer, env);
      JoinReads(Exprs(items), Mode(k), lexer, env);
      var child := Join(Exprs(items), Mode(k));
      if Exprs(items) != [] {
        assert Result(k, child)[1..] == [];
        NegatedReads(child, lexer, env);
      }
  }

  /** Reading the lines of any tree gives a text with the tree's meaning, whatever its lines contain, or no text if
      nothing in the tree counts, and uses up every line. */
  lemma TreeRoundTrip(items: seq<Item>, k: Kind, lexer: Lexer, env: nat -> bool)
    requires Sound(lexer) && Readable(items, lexer, env) && LeafLines(items)
    ensures var (text, next) := ParseLines(Lines(items), 0, [], Mode(k));
            && next == |Lines(items)|
            && match Meaning(items, Mode(k), lexer, env)
               case Some(b) => ValueOf(text, lexer, env) == Some(b)
               case None => text == ""
  {
    hide Sound, ValueOf, Join;
    var lines := Lines(items);
    assert lines[0..|lines|] == lines && [] + Exprs(items) == Exprs(items);
    LinesParse(lines, 0, |lines|, items, [], Mode(k));
    ExprsRead(items, Mode(k), lexer, env);
    JoinReads(Exprs(items), Mode(k), lexer, env);
  }

  // ---------- empty blocks ----------

  /** `all` of the items, `any` of them, not all of them. */
  predicate True(item: Item, lexer: Lexer, env: nat -> bool)
    decreases item
  {
    match item
    case Line(text) => ValueOf(text, lexer, env).GetOr(false)
    case Block(All, items) => forall k :: 0 <= k < |items| ==> True(items[k], lexer, env)
    case Block(Any, items) => exists k :: 0 <= k < |items| && True(items[k], lexer, env)
    case Block(Not, items) => exists k :: 0 <= k < |items| && !True(items[k], lexer, env)
  }

  /** A block without a line in it. */
  predicate Void(item: Item)
    decreases item
  {
    item.Block? && forall k :: 0 <= k < |item.items| ==> Void(item.items[k])
  }

  /** What a block without lines always comes to. */
  predicate Constant(item: Item)
    decreases item
  {
    match item
    case Line(_) => false
    case Block(All, items) => forall k :: 0 <= k < |items| ==> Constant(items[k])
    case Block(Any, items) => exists k :: 0 <= k < |items| && Constant(items[k])
    case Block(Not, items) => exists k :: 0 <= k < |items| && !Constant(items[k])
  }

  /** Every block without lines is what its parent ignores: true inside `all` and `not`, false inside `any`. */
  predicate Harmless(items: seq<Item>, k: Kind)
    decreases items
  {
    forall i :: 0 <= i < |items| ==> if Void(items[i]) then Constant(items[i]) == (k != Any) else HarmlessItem(items[i])
  }

  predicate HarmlessItem(item: Item)
    decreases item
  {
    item.Block? ==> Harmless(item.items, item.kind)
  }

  predicate AllVoid(items: seq<Item>) {
    forall i :: 0 <= i < |items| ==> Void(items[i])
  }

  lemma {:induction false} VoidCounts(item: Item, lexer: Lexer, env: nat -> bool)
    requires Void(item)
    ensures True(item, lexer, env) == Constant(item) && ItemMeaning(item, lexer, env) == None
    decreases item, 0
  {
    forall k | 0 <= k < |item.items|
      ensures True(item.items[k], lexer, env) == Constant(item.items[k])
    {
      VoidCounts(item.items[k], lexer, env);
    }
    VoidMeaning(item.items, Mode(item.kind), lexer, env);
  }

  lemma {:induction false} VoidMeaning(items: seq<Item>, mode: string, lexer: Lexer, env: nat -> bool)
    requires AllVoid(items)
    ensures Meaning(items, mode, lexer, env) == None
    decreases items, 1
  {
    if items != [] {
      VoidCounts(items[0], lexer, env);
      VoidMeaning(items[1..], mode, lexer, env);
    }
  }

  lemma HarmlessSplit(items: seq<Item>, k: Kind)
    requires items != [] && Harmless(items, k)
    ensures Harmless(items[1..], k)
    ensures if Void(items[0]) then Constant(items[0]) == (k != Any) else HarmlessItem(items[0])
    ensures AllVoid(items) <==> Void(items[0]) && AllVoid(items[1..])
  {
    hide Void, Constant, HarmlessItem;
    assert forall i :: 0 <= i < |items| ==> items[i] == if i == 0 then items[0] else items[1..][i - 1];
  }

  lemma {:induction false} MeaningHarmless(items: seq<Item>, k: Kind, lexer: Lexer, env: nat -> bool)
    requires Harmless(items, k) && Readable(items, lexer, env)
    ensures Meaning(items, Mode(k), lexer, env)
            == if AllVoid(items) then None
               else Some(if k == Any then exists i :: 0 <= i < |items| && True(items[i], lexer, env)
                         else forall i :: 0 <= i < |items| ==> True(items[i], lexer, env))
    ensures AllVoid(items) ==> forall i :: 0 <= i < |items| ==> True(items[i], lexer, env) == (k != Any)
    decreases items
  {
    hide True, ItemMeaning, ReadableItem, HarmlessItem, Void, Constant;
    if items != [] {
      var first, rest := items[0], items[1..];
      HarmlessSplit(items, k);
      MeaningHarmless(rest, k, lexer, env);
      if Void(first) {
        VoidCounts(first, lexer, env);
      } else {
        ItemHarmless(first, lexer, env);
      }
      assert forall i :: 0 <= i < |rest| ==> rest[i] == items[i + 1];
      assert (exists i :: 0 <= i < |items| && True(items[i], lexer, env))
          <==> True(first, lexer, env) || exists i :: 0 <= i < |rest| && True(rest[i], lexer, env);
      assert (forall i :: 0 <= i < |items| ==> True(items[i], lexer, env))
          <==> True(first, lexer, env) && forall i :: 0 <= i < |rest| ==> True(rest[i], lexer, env);
    }
  }

  lemma {:induction false} ItemHarmless(item: Item, lexer: Lexer, env: nat -> bool)
    requires !Void(item) && HarmlessItem(item) && ReadableItem(item, lexer, env)
    ensures ItemMeaning(item, lexer, env) == Some(True(item, lexer, env))
    decreases item
  {
    hide ValueOf, Meaning;
    match item
    case Line(_) =>
    case Block(k, items) => MeaningHarmless(items, k, lexer, env);
  }

  /** For trees whose blocks without lines are all harmless, those without empty blocks among them, the text is true
      exactly when the tree is. */
  lemma HarmlessRoundTrip(item: Item, lexer: Lexer, env: nat -> bool)
    requires Sound(lexer) && !Void(item) && HarmlessItem(item) && ReadableItem(item, lexer, env) && LeafItem(item)
    ensures var (text, next) := ParseLines(ItemLines(item), 0, [], "and");
            next == |ItemLines(item)| && ValueOf(text, lexer, env) == Some(True(item, lexer, env))
  {
    hide Sound, ValueOf, LeafItem, ReadableItem, True, ParseLines, Void, HarmlessItem;
    assert [item][0] == item && [item][1..] == [];
    assert Readable([item], lexer, env) && LeafLines([item]);
    assert Lines([item]) == ItemLines(item);
    TreeRoundTrip([item], All, lexer, env);
    ItemHarmless(item, lexer, env);
    assert Meaning([item], Mode(All), lexer, env) == ItemMeaning(item, lexer, env);
  }

  /** A tree in which no block is empty. */
  predicate Filled(item: Item)
    decreases item
  {
    item.Block? ==> item.items != [] && forall k :: 0 <= k < |item.items| ==> Filled(item.items[k])
  }

  lemma {:induction false} FilledHarmless(item: Item)
    requires Filled(item)
    ensures !Void(item) && HarmlessItem(item)
    decreases item
  {
    if item.Block? {
      forall k | 0 <= k < |item.items|
        ensures !Void(item.items[k]) && HarmlessItem(item.items[k])
      {
        FilledHarmless(item.items[k]);
      }
      assert !Void(item.items[0]);
    }
  }

  /** An empty `any` holds nowhere, yet inside `all` its text is that of its neighbours. */
  lemma EmptyAnyIgnored(line: string, lexer: Lexer, env: nat -> bool)
    requires Sound(lexer) && LeafLine(line) && ValueOf(line, lexer, env) == Some(true)
    ensures var item := Block(All, [Line(line), Block(Any, [])]);
            && !True(item, lexer, env)
            && ValueOf(ParseLines(ItemLines(item), 0, [], "and").0, lexer, env) == Some(true)
  {
    hide Sound, ValueOf, ParseLines, LeafLine;
    var inner := [Line(line), Block(Any, [])];
    var item := Block(All, inner);
    assert !True(inner[1], lexer, env);
    assert [item][1..] == [] && inner[1..] == [Block(Any, [])] && inner[1..][1..] == [];
    assert Lines([item]) == ItemLines(item);
    assert forall k :: 0 <= k < |inner| ==> ReadableItem(inner[k], lexer, env) && LeafItem(inner[k]);
    assert Readable(inner, lexer, env) && LeafLines(inner);
    assert ItemMeaning(inner[1], lexer, env) == None;
    assert Meaning(inner[1..], "and", lexer, env) == None;
    assert Meaning(inner, "and", lexer, env) == Some(true);
    assert Meaning([item], "and", lexer, env) == ItemMeaning(item, lexer, env) == Some(true);
    assert ReadableItem(item, lexer, env) && LeafItem(item) && [item][0] == item;
    assert Readable([item], lexer, env) && LeafLines([item]);
    TreeRoundTrip([item], All, lexer, env);
  }
}
