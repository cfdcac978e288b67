/** A plain lexer, of words and parentheses, that reads conditions as BclCondition asks of the expression lexer. */
module WordLexer {
  import opened BclCondition

  function Delimiter(c: char): seq<Tok> {
    if c == '(' then [Open] else if c == ')' then [Close] else []
  }

  predicate Delimits(c: char) {
    c == '(' || c == ')' || c == ' '
  }

  function Word(w: string, name: string -> nat): seq<Tok> {
    if w == [] then [] else if w == "and" then [And] else if w == "or" then [Or] else if w == "not" then [Negate]
    else [Atom(name(w))]
  }

  function Scan(s: string, w: string, name: string -> nat): seq<Tok>
    decreases |s|
  {
    if s == [] then Word(w, name)
    else if Delimits(s[0]) then Word(w, name) + Delimiter(s[0]) + Scan(s[1..], [], name)
    else Scan(s[1..], w + [s[0]], name)
  }

  function WordLexer(name: string -> nat): Lexer {
    Lexer(s => Scan(s, [], name), s => true)
  }

  lemma {:induction false} ScanSplit(a: string, c: char, b: string, w: string, name: string -> nat)
    requires Delimits(c)
    ensures Scan(a + [c] + b, w, name) == Scan(a, w, name) + Delimiter(c) + Scan(b, [], name)
    decreases |a|
  {
    hide Word;
    var s := a + [c] + b;
    if a == [] {
      assert s[1..] == b;
    } else {
      assert s[1..] == a[1..] + [c] + b;
      ScanSplit(a[1..], c, b, if Delimits(a[0]) then [] else w + [a[0]], name);
    }
  }

  lemma {:induction false} ScanWord(s: string, w: string, name: string -> nat)
    requires forall k :: 0 <= k < |s| ==> !Delimits(s[k])
    ensures Scan(s, w, name) == Word(w + s, name)
    decreases |s|
  {
    hide Word;
    if s == [] {
      assert w + s == w;
    } else {
      ScanWord(s[1..], w + [s[0]], name);
      assert w + [s[0]] + s[1..] == w + s;
    }
  }

  lemma ScanParen(a: string, name: string -> nat)
    ensures Scan(Paren(a), [], name) == [Open] + Scan(a, [], name) + [Close]
  {
    assert Paren(a) == [] + ['('] + (a + [')'] + []);
    ScanSplit([], '(', a + [')'] + [], [], name);
    ScanSplit(a, ')', [], [], name);
  }

  lemma ScanNegated(a: string, name: string -> nat)
    ensures Scan(Negated(a), [], name) == [Negate, Open] + Scan(a, [], name) + [Close]
  {
    assert Negated(a) == "not" + [' '] + Paren(a);
    ScanSplit("not", ' ', Paren(a), [], name);
    ScanWord("not", [], name);
    assert [] + "not" == "not";
    ScanParen(a, name);
  }

  lemma ScanInfix(a: string, op: string, b: string, name: string -> nat)
    requires op == "and" || op == "or"
    ensures Scan(Infix(a, op, b), [], name) == Scan(a, [], name) + [if op == "and" then And else Or] + Scan(b, [], name)
  {
    assert Infix(a, op, b) == a + [' '] + (op + [' '] + b);
    ScanSplit(a, ' ', op + [' '] + b, [], name);
    ScanSplit(op, ' ', b, [], name);
    ScanWord(op, [], name);
    assert [] + op == op;
  }

  /** Every text is complete to this lexer, and the parentheses and connectives around it are read as such. */
  lemma WordLexerSound(name: string -> nat)
    ensures Sound(WordLexer(name))
  {
    hide Scan;
    forall a ensures Scan(Paren(a), [], name) == [Open] + Scan(a, [], name) + [Close] {
      ScanParen(a, name);
    }
    forall a ensures Scan(Negated(a), [], name) == [Negate, Open] + Scan(a, [], name) + [Close] {
      ScanNegated(a, name);
    }
    forall a, op, b | op == "and" || op == "or"
      ensures Scan(Infix(a, op, b), [], name)
              == Scan(a, [], name) + [if op == "and" then And else Or] + Scan(b, [], name)
    {
      ScanInfix(a, op, b, name);
    }
  }
}
