/** The grammar of values and map blocks in bcl/bcl.go over tokens: every way to spell them, with newlines wherever they
    may stand and commas between the items of a list, is read as what is spelled. */
module BclGrammar {
  import opened Wrappers
  import opened Utf8
  import opened GoQuote
  import opened Scan = BclScanner
  import opened BclTokens
  import opened BclValue
  import opened FactTree
  import BclMap

  /** A spelled value: one token, or a list with some newlines before its end. */
  datatype Spelling = One(token: Lexeme) | Many(items: seq<Item>, newlines: nat)

  /** An item behind some newlines, with or without a comma. */
  datatype Item = Item(newlines: nat, value: Spelling, comma: bool)

  function Newlines(n: nat): seq<Lexeme> {
    if n == 0 then [] else [Lexeme(Newline, [NEWLINE])] + Newlines(n - 1)
  }

  function Tokens(s: Spelling): seq<Lexeme>
    decreases s, 0
  {
    match s
    case One(t) => [t]
    case Many(items, n) => [Lexeme(LBracket, [91])] + ItemTokens(items, n)
  }

  /** The tokens of the items and of the end of the list. */
  function ItemTokens(items: seq<Item>, newlines: nat): seq<Lexeme>
    decreases items, 1
  {
    if items == [] then Newlines(newlines) + [Lexeme(RBracket, [93])]
    else
      match items[0]
      case Item(before, value, comma) =>
        var behind := (if comma then [Lexeme(Comma, [44])] else []) + ItemTokens(items[1..], newlines);
        assert value < items[0];
        Newlines(before) + (Tokens(value) + behind)
  }

  /** What a spelling stands for: strings unquoted, numbers read, the words true and false flags. */
  function Meaning(s: Spelling, f: Format): Option<Value>
    decreases s, 0
  {
    match s
    case One(t) =>
      (match t.kind
       case String => Some(VString(Unquote(t.raw).GetOr(t.raw)))
       case Number => NumberOf(t.raw, f)
       case Ident => Some(WordOf(t.raw))
       case _ => None)
    case Many(items, _) =>
      var r := ItemMeanings(items, f);
      if r.None? then None else Some(VList(r.value))
  }

  function ItemMeanings(items: seq<Item>, f: Format): Option<seq<Value>>
    decreases items, 1
  {
    if items == [] then Some([])
    else
      match items[0]
      case Item(_, value, _) =>
        assert value < items[0];
        var v := Meaning(value, f);
        var rest := ItemMeanings(items[1..], f);
        if v.None? || rest.None? then None else Some([v.value] + rest.value)
  }

  // ---------- tokens of a text ----------

  /** The tokens from one on. */
  function From(src: Bytes, t: Token): seq<Lexeme>
    requires Standing(src, t)
    decreases Left(src, t)
  {
    if t.kind == EOF then [] else [Lexeme(t.kind, Raw(src, t))] + From(src, After(src, t))
  }

  lemma {:induction false} FromIsLexemes(src: Bytes, pos: nat)
    requires pos <= |src|
    ensures Standing(src, NextToken(src, pos)) && From(src, NextToken(src, pos)) == LexemesFrom(src, pos)
    decreases |src| - pos
  {
    hide NextToken;
    var t := NextToken(src, pos);
    if t.kind != EOF {
      FromIsLexemes(src, t.end);
    }
  }

  lemma FromStep(src: Bytes, t: Token, x: Lexeme, rest: seq<Lexeme>)
    requires Standing(src, t) && From(src, t) == [x] + rest
    ensures t.kind == x.kind != EOF && Raw(src, t) == x.raw && From(src, After(src, t)) == rest
  {
    assert From(src, t)[0] == x && From(src, t)[1..] == rest;
  }

  lemma {:induction false} NewlinesSkipped(src: Bytes, t: Token, n: nat, rest: seq<Lexeme>)
    requires Standing(src, t) && From(src, t) == Newlines(n) + rest && rest != [] && rest[0].kind != Newline
    ensures From(src, SkipNewlines(src, t)) == rest
    decreases n
  {
    hide From, NextToken, Raw;
    if n == 0 {
      assert Newlines(0) + rest == [rest[0]] + rest[1..];
      FromStep(src, t, rest[0], rest[1..]);
    } else {
      assert Newlines(n) + rest == [Lexeme(Newline, [NEWLINE])] + (Newlines(n - 1) + rest);
      FromStep(src, t, Lexeme(Newline, [NEWLINE]), Newlines(n - 1) + rest);
      NewlinesSkipped(src, After(src, t), n - 1, rest);
    }
  }

  /** A value's first token is no newline, bracket or comma that would be taken for something else. */
  lemma FirstToken(s: Spelling, f: Format)
    requires Meaning(s, f).Some?
    ensures Tokens(s) != [] && Tokens(s)[0].kind in {String, Number, Ident, LBracket}
  {
  }

  // ---------- every spelling is read ----------

  /** However a value is spelled, the parser reads the value it stands for and goes on behind it. */
  lemma {:induction false} SpellingParses(src: Bytes, t: Token, s: Spelling, rest: seq<Lexeme>, f: Format)
    requires Standing(src, t) && From(src, t) == Tokens(s) + rest && Meaning(s, f).Some?
    ensures ValueAt(src, t, f).Some?
    ensures ValueAt(src, t, f).value.value == Meaning(s, f).value && From(src, ValueAt(src, t, f).value.tok) == rest
    decreases s, 0
  {
    hide NextToken, From, SkipNewlines;
    match s
    case One(x) =>
      FromStep(src, t, x, rest);
    case Many(items, n) =>
      var inner := ItemTokens(items, n) + rest;
      assert Tokens(s) + rest == [Lexeme(LBracket, [91])] + inner;
      FromStep(src, t, Lexeme(LBracket, [91]), inner);
      ItemsParse(src, After(src, t), items, n, rest, f);
  }

  lemma {:induction false} ItemsParse(src: Bytes, t: Token, items: seq<Item>, n: nat, rest: seq<Lexeme>, f: Format)
    requires Standing(src, t) && From(src, t) == ItemTokens(items, n) + rest && ItemMeanings(items, f).Some?
    ensures ItemsAt(src, t, f).Some?
    ensures ItemsAt(src, t, f).value.value == ItemMeanings(items, f).value
    ensures From(src, ItemsAt(src, t, f).value.tok) == rest
    decreases items, 1
  {
    hide NextToken, From, SkipNewlines, ValueAt, ItemsAt, Tokens, Meaning;
    ItemsStep(src, t, f);
    if items == [] {
      var close := [Lexeme(RBracket, [93])] + rest;
      assert ItemTokens(items, n) + rest == Newlines(n) + close;
      NewlinesSkipped(src, t, n, close);
      FromStep(src, SkipNewlines(src, t), Lexeme(RBracket, [93]), rest);
    } else {
      var Item(before, value, comma) := items[0];
      assert value < items[0];
      var more := ItemTokens(items[1..], n) + rest;
      var behind := (if comma then [Lexeme(Comma, [44])] else []) + more;
      FirstToken(value, f);
      assert ItemTokens(items, n) + rest == Newlines(before) + (Tokens(value) + behind);
      NewlinesSkipped(src, t, before, Tokens(value) + behind);
      var u := SkipNewlines(src, t);
      FirstOf(src, u, Tokens(value), behind);
      SpellingParses(src, u, value, behind, f);
      var next := ValueAt(src, u, f).value.tok;
      if comma {
        FromStep(src, next, Lexeme(Comma, [44]), more);
        ItemsParse(src, After(src, next), items[1..], n, rest, f);
      } else {
        NoComma(src, next, items[1..], n, rest, f);
        ItemsParse(src, next, items[1..], n, rest, f);
      }
    }
  }

  lemma FirstOf(src: Bytes, t: Token, a: seq<Lexeme>, b: seq<Lexeme>)
    requires Standing(src, t) && From(src, t) == a + b && a != []
    ensures t.kind == a[0].kind
  {
    hide Raw, After, From;
    assert a + b == [a[0]] + (a[1..] + b);
    FromStep(src, t, a[0], a[1..] + b);
  }

  /** The rest of a list does not start with a comma. */
  lemma NoComma(src: Bytes, t: Token, items: seq<Item>, n: nat, rest: seq<Lexeme>, f: Format)
    requires Standing(src, t) && From(src, t) == ItemTokens(items, n) + rest && ItemMeanings(items, f).Some?
    ensures t.kind != Comma
  {
    if items != [] {
      FirstToken(items[0].value, f);
    }
    var all := ItemTokens(items, n);
    assert all != [] && all[0].kind != Comma;
    FirstOf(src, t, all, rest);
  }

  // ---------- and nothing else is ----------

  /** A token the scanner gives at some place. */
  ghost predicate Scanned(src: Bytes, t: Token) {
    exists pos :: 0 <= pos <= |src| && t == NextToken(src, pos)
  }

  lemma AfterScanned(src: Bytes, t: Token)
    requires Standing(src, t)
    ensures Scanned(src, After(src, t))
  {
    hide NextToken;
    assert t.end <= |src| && After(src, t) == NextToken(src, t.end);
  }

  /** Punctuation is spelled one way. */
  lemma PunctuationRaw(src: Bytes, t: Token)
    requires Standing(src, t) && Scanned(src, t)
    ensures t.kind == LBrace ==> Raw(src, t) == [123]
    ensures t.kind == RBrace ==> Raw(src, t) == [125]
    ensures t.kind == Equal ==> Raw(src, t) == [61]
    ensures t.kind == LBracket ==> Raw(src, t) == [91]
    ensures t.kind == RBracket ==> Raw(src, t) == [93]
    ensures t.kind == Comma ==> Raw(src, t) == [44]
    ensures t.kind == Newline ==> Raw(src, t) == [NEWLINE]
  {
    hide SkipBlanks, StringEnd, IdentEnd, WordKind;
    var pos :| 0 <= pos <= |src| && t == NextToken(src, pos);
    WordIsWord(src);
    if t.end == t.start + 1 {
      assert Raw(src, t) == [src[t.start]];
    }
  }

  lemma WordIsWord(src: Bytes)
    ensures forall start: nat, end: nat :: start < end <= |src| ==> WordKind(src, start, end) in {Number, Ident}
  {
  }

  lemma {:induction false} NewlinesRead(src: Bytes, t: Token) returns (n: nat)
    requires Standing(src, t) && Scanned(src, t)
    ensures Scanned(src, SkipNewlines(src, t)) && From(src, t) == Newlines(n) + From(src, SkipNewlines(src, t))
    decreases Left(src, t)
  {
    hide NextToken;
    n := 0;
    if t.kind == Newline {
      PunctuationRaw(src, t);
      AfterScanned(src, t);
      var m := NewlinesRead(src, After(src, t));
      n := m + 1;
    }
  }

  lemma FromNext(src: Bytes, t: Token)
    requires Standing(src, t) && t.kind != EOF
    ensures From(src, t) == [Lexeme(t.kind, Raw(src, t))] + From(src, After(src, t))
  {
  }

  /** Whatever the parser reads as a value is a spelling of it. */
  lemma {:induction false} ValueSpelled(src: Bytes, t: Token, f: Format) returns (s: Spelling)
    requires Standing(src, t) && Scanned(src, t) && ValueAt(src, t, f).Some?
    ensures Meaning(s, f) == Some(ValueAt(src, t, f).value.value)
    ensures From(src, t) == Tokens(s) + From(src, ValueAt(src, t, f).value.tok)
    ensures Scanned(src, ValueAt(src, t, f).value.tok)
    decreases Left(src, t), 0
  {
    hide NextToken, SkipNewlines, Scanned, From;
    FromNext(src, t);
    AfterScanned(src, t);
    if t.kind == LBracket {
      PunctuationRaw(src, t);
      var items, n := ItemsSpelled(src, After(src, t), f);
      s := Many(items, n);
      assert [Lexeme(LBracket, [91])] + (ItemTokens(items, n) + From(src, ValueAt(src, t, f).value.tok))
          == Tokens(s) + From(src, ValueAt(src, t, f).value.tok);
    } else {
      s := One(Lexeme(t.kind, Raw(src, t)));
    }
  }

  lemma {:induction false} ItemsSpelled(src: Bytes, t: Token, f: Format) returns (items: seq<Item>, n: nat)
    requires Standing(src, t) && Scanned(src, t) && ItemsAt(src, t, f).Some?
    ensures ItemMeanings(items, f) == Some(ItemsAt(src, t, f).value.value)
    ensures From(src, t) == ItemTokens(items, n) + From(src, ItemsAt(src, t, f).value.tok)
    ensures Scanned(src, ItemsAt(src, t, f).value.tok)
    decreases Left(src, t), 1
  {
    hide NextToken, SkipNewlines, ValueAt, ItemsAt, Meaning, Tokens, From, Scanned, Raw;
    ItemsStep(src, t, f);
    var before := NewlinesRead(src, t);
    var u := SkipNewlines(src, t);
    if u.kind == RBracket {
      PunctuationRaw(src, u);
      FromNext(src, u);
      AfterScanned(src, u);
      items, n := [], before;
      assert Newlines(before) + ([Lexeme(RBracket, [93])] + From(src, After(src, u)))
          == ItemTokens(items, n) + From(src, After(src, u));
    } else {
      var value := ValueSpelled(src, u, f);
      var next := ValueAt(src, u, f).value.tok;
      var rest;
      rest, n := MoreSpelled(src, next, f);
      items := [Item(before, value, next.kind == Comma)] + rest;
      Gathered(items, n, From(src, ItemsAt(src, t, f).value.tok));
    }
  }

  /** The tokens of some items are those of the first and of the rest. */
  lemma Gathered(items: seq<Item>, n: nat, after: seq<Lexeme>)
    requires items != []
    ensures var behind := CommaIf(items[0].comma) + (ItemTokens(items[1..], n) + after);
            ItemTokens(items, n) + after == Newlines(items[0].newlines) + (Tokens(items[0].value) + behind)
  {
    hide Tokens;
    var i := items[0];
    var rest := ItemTokens(items[1..], n);
    assert ItemTokens(items, n) == Newlines(i.newlines) + (Tokens(i.value) + (CommaIf(i.comma) + rest));
  }

  function CommaIf(comma: bool): seq<Lexeme> {
    if comma then [Lexeme(Comma, [44])] else []
  }

  /** What follows an item: a comma or not, and the rest of the list. */
  lemma {:induction false} MoreSpelled(src: Bytes, next: Token, f: Format) returns (rest: seq<Item>, n: nat)
    requires Standing(src, next) && Scanned(src, next)
    requires ItemsAt(src, if next.kind == Comma then After(src, next) else next, f).Some?
    ensures var r := ItemsAt(src, if next.kind == Comma then After(src, next) else next, f).value;
            && ItemMeanings(rest, f) == Some(r.value) && Scanned(src, r.tok)
            && From(src, next) == CommaIf(next.kind == Comma) + (ItemTokens(rest, n) + From(src, r.tok))
    decreases Left(src, next), 2
  {
    hide NextToken, ItemsAt, From, Scanned, Raw, ItemTokens, ItemMeanings;
    if next.kind == Comma {
      PunctuationRaw(src, next);
      FromNext(src, next);
      AfterScanned(src, next);
      rest, n := ItemsSpelled(src, After(src, next), f);
    } else {
      rest, n := ItemsSpelled(src, next, f);
      var all := ItemTokens(rest, n) + From(src, ItemsAt(src, next, f).value.tok);
      assert CommaIf(false) + all == all;
    }
  }

  // ---------- map blocks ----------

  /** An entry behind some newlines, with more of them before its equals sign. */
  datatype Entry = Entry(newlines: nat, key: Lexeme, gap: nat, value: Spelling)

  function EntryTokens(es: seq<Entry>, newlines: nat): seq<Lexeme> {
    if es == [] then Newlines(newlines) + [Lexeme(RBrace, [125])]
    else
      var rest := Tokens(es[0].value) + EntryTokens(es[1..], newlines);
      Newlines(es[0].newlines) + ([es[0].key] + (Newlines(es[0].gap) + ([Lexeme(Equal, [61])] + rest)))
  }

  /** A key is a word, a number or a string, which is unquoted. */
  function KeyOf(t: Lexeme): Option<Bytes> {
    match t.kind
    case String => Some(Unquote(t.raw).GetOr(t.raw))
    case Ident => Some(t.raw)
    case Number => Some(t.raw)
    case _ => None
  }

  function EntryMeanings(es: seq<Entry>, f: Format): Option<seq<(Bytes, Value)>> {
    if es == [] then Some([])
    else
      var k, v, rest := KeyOf(es[0].key), Meaning(es[0].value, f), EntryMeanings(es[1..], f);
      if k.None? || v.None? || rest.None? then None else Some([(k.value, v.value)] + rest.value)
  }

  lemma {:induction false} EntriesParse(src: Bytes, t: Token, es: seq<Entry>, n: nat, rest: seq<Lexeme>, f: Format)
    requires Standing(src, t) && From(src, t) == EntryTokens(es, n) + rest && EntryMeanings(es, f).Some?
    ensures BclMap.EntriesAt(src, t, f).Some?
    ensures BclMap.EntriesAt(src, t, f).value.value == EntryMeanings(es, f).value
    ensures From(src, BclMap.EntriesAt(src, t, f).value.tok) == rest
    decreases |es|
  {
    hide NextToken, From, SkipNewlines, ValueAt, BclMap.EntriesAt, Tokens, Meaning;
    BclMap.EntriesStep(src, t, f);
    if es == [] {
      var close := [Lexeme(RBrace, [125])] + rest;
      assert EntryTokens(es, n) + rest == Newlines(n) + close;
      NewlinesSkipped(src, t, n, close);
      FromStep(src, SkipNewlines(src, t), Lexeme(RBrace, [125]), rest);
    } else {
      var e := es[0];
      var more := EntryTokens(es[1..], n) + rest;
      var assign := [Lexeme(Equal, [61])] + (Tokens(e.value) + more);
      var body := [e.key] + (Newlines(e.gap) + assign);
      assert EntryTokens(es, n) + rest == Newlines(e.newlines) + body;
      NewlinesSkipped(src, t, e.newlines, body);
      var u := SkipNewlines(src, t);
      FromStep(src, u, e.key, Newlines(e.gap) + assign);
      NewlinesSkipped(src, After(src, u), e.gap, assign);
      var q := SkipNewlines(src, After(src, u));
      FromStep(src, q, Lexeme(Equal, [61]), Tokens(e.value) + more);
      SpellingParses(src, After(src, q), e.value, more, f);
      EntriesParse(src, ValueAt(src, After(src, q), f).value.tok, es[1..], n, rest, f);
    }
  }

  /** However a map block is spelled, the parser stores its keys and values in order and goes on behind it. */
  lemma BlockParses(src: Bytes, t: Token, before: nat, es: seq<Entry>, n: nat, rest: seq<Lexeme>, f: Format)
    returns (next: Token)
    requires Standing(src, t) && EntryMeanings(es, f).Some?
    requires From(src, t) == Newlines(before) + ([Lexeme(LBrace, [123])] + (EntryTokens(es, n) + rest))
    ensures Standing(src, next) && From(src, next) == rest
    ensures BclMap.MapBlockAt(src, t, f) == BclMap.Filled(Some(Parsed(EntryMeanings(es, f).value, next)), MapT(map[]))
  {
    hide NextToken, From, SkipNewlines, BclMap.EntriesAt, BclMap.Filled;
    var inner := EntryTokens(es, n) + rest;
    NewlinesSkipped(src, t, before, [Lexeme(LBrace, [123])] + inner);
    var u := SkipNewlines(src, t);
    FromStep(src, u, Lexeme(LBrace, [123]), inner);
    EntriesParse(src, After(src, u), es, n, rest, f);
    next := BclMap.EntriesAt(src, After(src, u), f).value.tok;
  }

  /** Whatever the parser reads as entries is spelled as such. */
  lemma {:induction false} EntriesSpelled(src: Bytes, t: Token, f: Format) returns (es: seq<Entry>, n: nat)
    requires Standing(src, t) && Scanned(src, t) && BclMap.EntriesAt(src, t, f).Some?
    ensures EntryMeanings(es, f) == Some(BclMap.EntriesAt(src, t, f).value.value)
    ensures From(src, t) == EntryTokens(es, n) + From(src, BclMap.EntriesAt(src, t, f).value.tok)
    ensures Scanned(src, BclMap.EntriesAt(src, t, f).value.tok)
    decreases Left(src, t)
  {
    hide NextToken, SkipNewlines, ValueAt, BclMap.EntriesAt, Meaning, Tokens, From, Scanned, Raw;
    BclMap.EntriesStep(src, t, f);
    var before := NewlinesRead(src, t);
    var u := SkipNewlines(src, t);
    PunctuationRaw(src, u);
    FromNext(src, u);
    AfterScanned(src, u);
    if u.kind == RBrace {
      es, n := [], before;
      assert Newlines(before) + ([Lexeme(RBrace, [125])] + From(src, After(src, u)))
          == EntryTokens(es, n) + From(src, After(src, u));
    } else {
      var gap := NewlinesRead(src, After(src, u));
      var q := SkipNewlines(src, After(src, u));
      PunctuationRaw(src, q);
      FromNext(src, q);
      AfterScanned(src, q);
      var value := ValueSpelled(src, After(src, q), f);
      var rest;
      rest, n := EntriesSpelled(src, ValueAt(src, After(src, q), f).value.tok, f);
      es := [Entry(before, Lexeme(u.kind, Raw(src, u)), gap, value)] + rest;
      KeyRead(src, u);
      EntriesGathered(es, n, From(src, BclMap.EntriesAt(src, t, f).value.tok));
    }
  }

  lemma KeyRead(src: Bytes, u: Token)
    requires Standing(src, u) && BclMap.StringLike(u.kind)
    ensures KeyOf(Lexeme(u.kind, Raw(src, u))) == Some(Text(src, u))
  {
    hide Unquote;
  }

  lemma EntriesGathered(es: seq<Entry>, n: nat, after: seq<Lexeme>)
    requires es != []
    ensures var behind := Tokens(es[0].value) + (EntryTokens(es[1..], n) + after);
            EntryTokens(es, n) + after == Newlines(es[0].newlines)
            + ([es[0].key] + (Newlines(es[0].gap) + ([Lexeme(Equal, [61])] + behind)))
  {
    hide Tokens;
    assert EntryTokens(es, n) == Newlines(es[0].newlines) + ([es[0].key] + (Newlines(es[0].gap)
        + ([Lexeme(Equal, [61])] + (Tokens(es[0].value) + EntryTokens(es[1..], n)))));
  }

  /** Whatever the parser reads as a map block is spelled as one, and its map is what its entries store. */
  lemma BlockSpelled(src: Bytes, t: Token, f: Format) returns (before: nat, es: seq<Entry>, n: nat)
    requires Standing(src, t) && Scanned(src, t) && BclMap.MapBlockAt(src, t, f).Some?
    ensures EntryMeanings(es, f).Some?
    ensures var (m, next) := (BclMap.MapBlockAt(src, t, f).value.value, BclMap.MapBlockAt(src, t, f).value.tok);
            && BclMap.Fill(MapT(map[]), EntryMeanings(es, f).value) == (m, true)
            && From(src, t) == Newlines(before) + ([Lexeme(LBrace, [123])] + (EntryTokens(es, n) + From(src, next)))
  {
    hide NextToken, SkipNewlines, BclMap.EntriesAt, BclMap.Fill, Meaning, Tokens, From, Scanned, Raw;
    before := NewlinesRead(src, t);
    var u := SkipNewlines(src, t);
    PunctuationRaw(src, u);
    FromNext(src, u);
    AfterScanned(src, u);
    es, n := EntriesSpelled(src, After(src, u), f);
  }
}
