/** From the text of a condition block to its lines, and on to one condition (bcl/bcl.go). */
module BclConditionText {
  import opened Wrappers
  import opened BclCondition

  /** `{` ends a line and `}` stands on its own. */
  function Expand(s: string): string {
    if s == [] then []
    else (if s[0] == '{' then "{\n" else if s[0] == '}' then "\n}\n" else [s[0]]) + Expand(s[1..])
  }

  /** `strings.Split(s, "\n")`. */
  function SplitLines(s: string): (r: seq<string>)
    ensures r != []
  {
    if s == [] then [[]]
    else
      var rest := SplitLines(s[1..]);
      if s[0] == '\n' then [[]] + rest else [[s[0]] + rest[0]] + rest[1..]
  }

  /** `bclConditionLines`: the lines that are not blank, trimmed. */
  function ConditionLines(raw: string): seq<string> {
    Filtered(SplitLines(Expand(raw)))
  }

  lemma {:induction false} ExpandAppend(a: string, b: string)
    ensures Expand(a + b) == Expand(a) + Expand(b)
  {
    if a == [] {
      assert a + b == b;
    } else {
      assert (a + b)[1..] == a[1..] + b;
      ExpandAppend(a[1..], b);
    }
  }

  lemma {:induction false} ExpandPlain(a: string)
    requires '{' !in a && '}' !in a
    ensures Expand(a) == a
  {
    if a != [] {
      ExpandPlain(a[1..]);
      assert a == [a[0]] + a[1..];
    }
  }

  lemma {:induction false} SplitNewline(a: string, b: string)
    requires '\n' !in a
    ensures SplitLines(a + "\n" + b) == [a] + SplitLines(b)
  {
    var s := a + "\n" + b;
    if a == [] {
      assert s[0] == '\n' && s[1..] == b;
    } else {
      assert s[1..] == a[1..] + "\n" + b && s[0] == a[0];
      SplitNewline(a[1..], b);
      assert a == [a[0]] + a[1..];
    }
  }

  /** Indentation. */
  predicate Pad(s: string) {
    forall k :: 0 <= k < |s| ==> s[k] == ' ' || s[k] == '\t'
  }

  lemma {:induction false} TrimPad(pad: string, line: string)
    requires Pad(pad) && (line == [] || Trimmed(line))
    ensures Trim(pad + line) == line
    decreases |pad|
  {
    if pad == [] {
      assert pad + line == line;
    } else {
      assert (pad + line)[1..] == pad[1..] + line;
      TrimPad(pad[1..], line);
    }
  }

  /** One line in front, however indented; a blank one does not count. */
  lemma LineInFront(pad: string, line: string, rest: string)
    requires Pad(pad) && '\n' !in line && (line == [] || Trimmed(line))
    ensures Filtered(SplitLines(pad + line + "\n" + rest))
            == (if line == [] then [] else [line]) + Filtered(SplitLines(rest))
  {
    hide Trim, SplitLines;
    assert '\n' !in pad + line;
    SplitNewline(pad + line, rest);
    TrimPad(pad, line);
    assert ([pad + line] + SplitLines(rest))[1..] == SplitLines(rest);
  }

  lemma LeafInFront(pad: string, line: string, rest: string)
    requires Pad(pad) && LeafLine(line)
    ensures ConditionLines(pad + line + "\n" + rest) == [line] + ConditionLines(rest)
  {
    hide Filtered, SplitLines;
    ExpandAppend(pad + line + "\n", rest);
    ExpandPlain(pad + line + "\n");
    assert Expand(pad + line + "\n" + rest) == pad + line + "\n" + Expand(rest);
    LineInFront(pad, line, Expand(rest));
  }

  lemma ExpandBrace(a: string, rest: string)
    requires '{' !in a && '}' !in a
    ensures Expand(a + ("{" + rest)) == a + ("{\n" + Expand(rest))
    ensures Expand(a + ("}" + rest)) == a + ("\n}\n" + Expand(rest))
  {
    ExpandAppend(a, "{" + rest);
    ExpandAppend(a, "}" + rest);
    ExpandPlain(a);
    assert ("{" + rest)[1..] == rest && ("}" + rest)[1..] == rest;
  }

  lemma HeaderInFront(pad: string, k: Kind, rest: string)
    requires Pad(pad)
    ensures ConditionLines(pad + Header(k) + rest) == [Header(k)] + ConditionLines(rest)
  {
    hide Filtered, SplitLines, Expand, Header, Trimmed;
    var word := HeaderWord(k);
    var more := Expand(rest);
    assert pad + Header(k) + rest == (pad + word) + ("{" + rest);
    ExpandBrace(pad + word, rest);
    assert (pad + word) + ("{\n" + more) == pad + Header(k) + "\n" + more;
    LineInFront(pad, Header(k), more);
  }

  lemma HeaderWord(k: Kind) returns (word: string)
    ensures Header(k) == word + "{" && '{' !in word && '}' !in word && '\n' !in Header(k) && Trimmed(Header(k))
  {
    word := match k case All => "all " case Any => "any " case Not => "not ";
  }

  lemma CloseInFront(pad: string, rest: string)
    requires Pad(pad)
    ensures ConditionLines(pad + CLOSE + rest) == [CLOSE] + ConditionLines(rest)
  {
    hide Filtered, SplitLines, Expand;
    var more := Expand(rest);
    assert pad + CLOSE + rest == pad + ("}" + rest);
    ExpandBrace(pad, rest);
    LineInFront(pad, [], CLOSE + "\n" + more);
    assert pad + ("\n}\n" + more) == pad + [] + "\n" + (CLOSE + "\n" + more);
    LineInFront([], CLOSE, more);
    assert [] + CLOSE + "\n" + more == CLOSE + "\n" + more;
  }

  // ---------- a tree as text ----------

  /** A tree as it is written, each level indented by `pad`. */
  function Render(items: seq<Item>, pad: string): string
    decreases items
  {
    if items == [] then [] else RenderItem(items[0], pad) + Render(items[1..], pad)
  }

  function RenderItem(item: Item, pad: string): string
    decreases item
  {
    match item
    case Line(text) => pad + text + "\n"
    case Block(k, items) => pad + Header(k) + "\n" + Render(items, pad + "  ") + pad + CLOSE + "\n"
  }

  lemma {:induction false} RenderLines(items: seq<Item>, pad: string, rest: string)
    requires Pad(pad) && LeafLines(items)
    ensures ConditionLines(Render(items, pad) + rest) == Lines(items) + ConditionLines(rest)
    decreases items
  {
    hide ConditionLines, RenderItem, ItemLines, LeafItem;
    if items == [] {
      assert Render(items, pad) + rest == rest;
    } else {
      var tail := Render(items[1..], pad);
      assert Render(items, pad) + rest == RenderItem(items[0], pad) + (tail + rest);
      RenderItemLines(items[0], pad, tail + rest);
      RenderLines(items[1..], pad, rest);
    }
  }

  lemma {:induction false} RenderItemLines(item: Item, pad: string, rest: string)
    requires Pad(pad) && LeafItem(item)
    ensures ConditionLines(RenderItem(item, pad) + rest) == ItemLines(item) + ConditionLines(rest)
    decreases item
  {
    hide ConditionLines, Header;
    match item
    case Line(text) =>
      LeafInFront(pad, text, rest);
    case Block(k, items) =>
      var inner := Render(items, pad + "  ");
      var after := pad + CLOSE + ("\n" + rest);
      assert RenderItem(item, pad) + rest == pad + Header(k) + ("\n" + (inner + after));
      HeaderInFront(pad, k, "\n" + (inner + after));
      BlankInFront(inner + after);
      RenderLines(items, pad + "  ", after);
      CloseInFront(pad, "\n" + rest);
      BlankInFront(rest);
  }

  lemma BlankInFront(rest: string)
    ensures ConditionLines("\n" + rest) == ConditionLines(rest)
  {
    hide Filtered, SplitLines;
    assert ("\n" + rest)[1..] == rest;
    assert "\n" + Expand(rest) == [] + [] + "\n" + Expand(rest);
    LineInFront([], [], Expand(rest));
  }

  // ---------- one condition ----------

  /** `bclConditionLooksStructured`. */
  predicate Structured(lines: seq<string>) {
    |lines| > 1 || (|lines| == 1 && KindOf(lines[0]).Some?)
  }

  /** `normalizeBCLConditionBlock`. */
  method Normalize(raw: string) returns (r: string)
    ensures r == Normalized(raw)
  {
    hide ParseLines, Join, KindOf, SplitLines, Expand, Filtered;
    var lines := ConditionLines(raw);
    JoinNothing("and");
    assert lines[|lines|..] == [];
    if |lines| == 0 {
      return raw;
    }
    if !Structured(lines) {
      if |lines| == 1 {
        return lines[0];
      }
      r := JoinConditions(lines, "and");
      return;
    }
    var expr, next := ParseConditionLines(lines, 0, "and");
    if next < |lines| {
      var rest := JoinConditions(lines[next..], "and");
      if rest != "" {
        if expr == "" {
          return rest;
        }
        return Paren(expr) + " and " + Paren(rest);
      }
    }
    r := expr;
  }

  function Normalized(raw: string): string {
    var lines := ConditionLines(raw);
    if lines == [] then raw
    else if !Structured(lines) then lines[0]
    else
      var (expr, next) := ParseLines(lines, 0, [], "and");
      var rest := Join(lines[next..], "and");
      if rest == "" then expr else if expr == "" then rest else Paren(expr) + " and " + Paren(rest)
  }

  lemma JoinNothing(op: string)
    ensures Join([], op) == ""
  {
  }

  /** The condition made of a written tree has the tree's meaning; a block in which nothing counts gives no
      condition. */
  lemma BlockMeaning(items: seq<Item>, pad: string, lexer: Lexer, env: nat -> bool)
    requires Sound(lexer) && Readable(items, lexer, env) && LeafLines(items) && Pad(pad) && items != []
    ensures match Meaning(items, "and", lexer, env)
            case Some(b) => ValueOf(Normalized(Render(items, pad)), lexer, env) == Some(b)
            case None => Normalized(Render(items, pad)) == ""
  {
    hide ConditionLines, ParseLines, Sound, ValueOf, Join, LeafLine, KindOf;
    var raw, lines := Render(items, pad), Lines(items);
    RenderLines(items, pad, []);
    NoLines();
    assert raw + [] == raw && lines + [] == lines;
    TreeRoundTrip(items, All, lexer, env);
    assert lines[|lines|..] == [];
    JoinNothing("and");
    if !Structured(lines) {
      LeafAlone(lines);
    }
  }

  /** A brace that closes nothing ends the tree: what stands behind it is put with and, and joined to the tree. */
  lemma StrayBrace(raw: string, items: seq<Item>, rest: seq<string>)
    requires ConditionLines(raw) == Lines(items) + [CLOSE] + rest && |ConditionLines(raw)| > 1 && LeafLines(items)
    ensures var a, b := Join(Exprs(items), "and"), Join(rest, "and");
            Normalized(raw) == if b == "" then a else if a == "" then b else "(" + a + ") and (" + b + ")"
  {
    hide ConditionLines, ParseLines, Join, LeafLine, KindOf;
    var lines := ConditionLines(raw);
    var n := |Lines(items)|;
    assert lines[0..n] == Lines(items) && lines[n] == CLOSE && lines[n + 1..] == rest;
    LinesParse(lines, 0, n, items, [], "and");
    assert [] + Exprs(items) == Exprs(items);
    var a, b := Join(Exprs(items), "and"), Join(rest, "and");
    assert "(" + a + ") and (" + b + ")" == Paren(a) + " and " + Paren(b);
  }

  lemma NoLines()
    ensures ConditionLines([]) == []
  {
    assert Filtered([[]]) == [];
  }

  /** A single plain line is its own condition. */
  lemma LeafAlone(lines: seq<string>)
    requires |lines| == 1 && LeafLine(lines[0])
    ensures ParseLines(lines, 0, [], "and").0 == lines[0]
  {
    LeafIsNoBrace(lines[0]);
    ParseStep(lines, 0, [], "and");
    assert [] + [lines[0]] == [lines[0]] && [lines[0]][1..] == [];
    assert ParseLines(lines, 1, [lines[0]], "and") == (Join([lines[0]], "and"), 1);
    FilteredTrimmed([lines[0]]);
  }
}
