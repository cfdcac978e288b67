/** BCL values: the append-style printer and the recursive-descent parser of bcl/bcl.go, and the trip from one to the
    other. */
module BclValue {
  import Decimals
  import opened Wrappers
  import opened Utf8
  import opened GoQuote
  import opened Scan = BclScanner

  const DOT: Byte := 46
  const MINUS: Byte := 45
  const TRUE: Bytes := [116, 114, 117, 101]
  const FALSE: Bytes := [102, 97, 108, 115, 101]
  const SEPARATOR: Bytes := [44, 32]

  type Int64 = n: int | -0x8000_0000_0000_0000 <= n < 0x8000_0000_0000_0000

  datatype Value =
    | VString(text: Bytes) | VBool(flag: bool) | VInt(number: Int64) | VFloat(amount: real) | VList(items: seq<Value>)

  /** Go's float printer and parser and its table of printable runes. */
  datatype Format = Format(show: real -> Bytes, read: Bytes -> Option<real>, printable: int -> bool)

  /** Digits, dots and minus signs, the first of them a digit or a minus sign. */
  predicate NumberText(s: Bytes) {
    s != [] && (s[0] == MINUS || 48 <= s[0] <= 57) && forall k :: 0 < k < |s| ==> NumberByte(s[k])
  }

  /** Floats print as number text, and text with a dot reads back. */
  ghost predicate Sound(f: Format) {
    forall x :: NumberText(f.show(x)) && (DOT in f.show(x) ==> f.read(f.show(x)) == Some(x))
  }

  // ---------- integers ----------

  predicate Digits(s: Bytes) {
    forall k :: 0 <= k < |s| ==> 48 <= s[k] <= 57
  }

  function DigitByte(d: int): Byte {
    if 0 <= d < 10 then 48 + d else 48
  }

  function Natural(n: nat): (s: Bytes)
    ensures s != [] && Digits(s)
  {
    Decimals.Decimal(n, DigitByte)
  }

  /** `strconv.AppendInt` in base 10. */
  function Decimal(n: int): (s: Bytes)
    ensures NumberText(s) && DOT !in s
  {
    if n < 0 then [MINUS] + Natural(-n) else Natural(n)
  }

  function NaturalOf(s: Bytes): (n: int)
    requires Digits(s)
    ensures n >= 0
  {
    if s == [] then 0 else NaturalOf(s[..|s| - 1]) * 10 + (s[|s| - 1] - 48)
  }

  /** `strconv.ParseInt` in base 10 for 64 bits. */
  function ParseInt(s: Bytes): Option<Int64> {
    var body := if s != [] && (s[0] == MINUS || s[0] == 43) then s[1..] else s;
    if body == [] || !Digits(body) then None
    else
      var n: int := if s[0] == MINUS then -NaturalOf(body) else NaturalOf(body);
      if -0x8000_0000_0000_0000 <= n < 0x8000_0000_0000_0000 then Some(n) else None
  }

  lemma {:induction false} NaturalOfNatural(n: nat)
    ensures NaturalOf(Natural(n)) == n
  {
    var s := Natural(n);
    if n < 10 {
      assert s[..0] == [];
    } else {
      NaturalOfNatural(n / 10);
      assert s[..|s| - 1] == Natural(n / 10);
    }
  }

  lemma ParseDecimal(n: Int64)
    ensures ParseInt(Decimal(n)) == Some(n)
  {
    hide Natural, NaturalOf, NumberText;
    var m: int := n;
    if m < 0 {
      NaturalOfNatural(-m);
      assert Decimal(m)[1..] == Natural(-m);
    } else {
      NaturalOfNatural(m);
      assert Digits(Decimal(m)) && 48 <= Decimal(m)[0];
    }
  }

  // ---------- printing ----------

  function Quoted(s: Bytes, printable: int -> bool): Bytes {
    if Plain(s) then [QUOTE] + s + [QUOTE] else [QUOTE] + QuoteBody(s, printable) + [QUOTE]
  }

  /** `appendBCLValue`. */
  function Print(v: Value, f: Format): Bytes
    decreases v
  {
    match v
    case VString(s) => Quoted(s, f.printable)
    case VBool(b) => if b then TRUE else FALSE
    case VInt(n) => Decimal(n)
    case VFloat(x) => f.show(x)
    case VList(items) => [91] + PrintItems(items, f) + [93]
  }

  function PrintItems(items: seq<Value>, f: Format): Bytes
    decreases items
  {
    if items == [] then []
    else Print(items[0], f) + (if |items| == 1 then [] else SEPARATOR + PrintItems(items[1..], f))
  }

  // ---------- parsing ----------

  predicate Standing(src: Bytes, t: Token) {
    && t.start <= t.end <= |src|
    && (if t.kind == EOF then t.start == |src| else t.start < t.end)
  }

  /** How much text is left from a token on. */
  function Left(src: Bytes, t: Token): nat
    requires Standing(src, t)
  {
    if t.kind == EOF then 0 else 1 + |src| - t.start
  }

  function After(src: Bytes, t: Token): (u: Token)
    requires Standing(src, t)
    ensures Standing(src, u) && u == NextToken(src, t.end)
    ensures t.kind != EOF ==> Left(src, u) < Left(src, t)
    ensures t.kind == EOF ==> u == t
  {
    NextToken(src, t.end)
  }

  function SkipNewlines(src: Bytes, t: Token): (u: Token)
    requires Standing(src, t)
    ensures Standing(src, u) && u.kind != Newline && Left(src, u) <= Left(src, t)
    ensures t.kind != Newline ==> u == t
    decreases Left(src, t)
  {
    if t.kind == Newline then SkipNewlines(src, After(src, t)) else t
  }

  function Raw(src: Bytes, t: Token): Bytes
    requires Standing(src, t)
  {
    src[t.start..t.end]
  }

  /** `text`: a string that does not unquote stands for its own source text. */
  function Text(src: Bytes, t: Token): Bytes
    requires Standing(src, t)
  {
    if t.kind == String then Unquote(Raw(src, t)).GetOr(Raw(src, t)) else Raw(src, t)
  }

  function NumberOf(raw: Bytes, f: Format): Option<Value> {
    if DOT in raw then
      var x := f.read(raw);
      if x.None? then None else Some(VFloat(x.value))
    else
      var n := ParseInt(raw);
      if n.None? then None else Some(VInt(n.value))
  }

  function WordOf(raw: Bytes): Value {
    if raw == TRUE then VBool(true) else if raw == FALSE then VBool(false) else VString(raw)
  }

  /** A parsed thing and the token that follows it. */
  datatype Parsed<T> = Parsed(value: T, tok: Token)

  /** `parseValue`. */
  function ValueAt(src: Bytes, t: Token, f: Format): (r: Option<Parsed<Value>>)
    requires Standing(src, t)
    ensures r.Some? ==> Standing(src, r.value.tok) && Left(src, r.value.tok) < Left(src, t)
    decreases Left(src, t), 0
  {
    match t.kind
    case String => Some(Parsed(VString(Text(src, t)), After(src, t)))
    case Number =>
      var v := NumberOf(Raw(src, t), f);
      if v.None? then None else Some(Parsed(v.value, After(src, t)))
    case Ident => Some(Parsed(WordOf(Raw(src, t)), After(src, t)))
    case LBracket =>
      var r := ItemsAt(src, After(src, t), f);
      if r.None? then None else Some(Parsed(VList(r.value.value), r.value.tok))
    case _ => None
  }

  /** The rest of a list, up to and past its closing bracket. */
  function ItemsAt(src: Bytes, t: Token, f: Format): (r: Option<Parsed<seq<Value>>>)
    requires Standing(src, t)
    ensures r.Some? ==> Standing(src, r.value.tok) && Left(src, r.value.tok) <= Left(src, t)
    decreases Left(src, t), 1
  {
    var u := SkipNewlines(src, t);
    if u.kind == RBracket then Some(Parsed([], After(src, u)))
    else
      var v := ValueAt(src, u, f);
      if v.None? then None
      else
        var rest := ItemsAt(src, if v.value.tok.kind == Comma then After(src, v.value.tok) else v.value.tok, f);
        if rest.None? then None else Some(Parsed([v.value.value] + rest.value.value, rest.value.tok))
  }

  /** One turn of the loop over a list's items. */
  lemma ItemsStep(src: Bytes, t: Token, f: Format)
    requires Standing(src, t)
    ensures var u := SkipNewlines(src, t);
            var v := ValueAt(src, u, f);
            if u.kind == RBracket then ItemsAt(src, t, f) == Some(Parsed([], After(src, u)))
            else if v.None? then ItemsAt(src, t, f) == None
            else
              var rest := ItemsAt(src, if v.value.tok.kind == Comma then After(src, v.value.tok) else v.value.tok, f);
              ItemsAt(src, t, f) == if rest.None? then None
                  else Some(Parsed([v.value.value] + rest.value.value, rest.value.tok))
  {
    hide ValueAt, NextToken, SkipNewlines;
  }

  // ---------- what comes back ----------

  /** A float whose text has no dot is read as an integer; one too large for 64 bits is an error. */
  function Restored(v: Value, f: Format): Option<Value>
    decreases v
  {
    match v
    case VFloat(x) => NumberOf(f.show(x), f)
    case VList(items) =>
      var r := RestoredItems(items, f);
      if r.None? then None else Some(VList(r.value))
    case _ => Some(v)
  }

  function RestoredItems(items: seq<Value>, f: Format): Option<seq<Value>>
    decreases items
  {
    if items == [] then Some([])
    else
      var v := Restored(items[0], f);
      var rest := RestoredItems(items[1..], f);
      if v.None? || rest.None? then None else Some([v.value] + rest.value)
  }

  /** Every float in the value prints with a dot. */
  predicate Dotted(v: Value, f: Format)
    decreases v
  {
    match v
    case VFloat(x) => DOT in f.show(x)
    case VList(items) => forall k :: 0 <= k < |items| ==> Dotted(items[k], f)
    case _ => true
  }

  /** The end of the text or a byte that cannot go on a word: what the printer writes after a value. */
  predicate Delimited(src: Bytes, end: nat) {
    end <= |src| && (end < |src| ==> !IdentByte(src[end]))
  }

  predicate Holds(src: Bytes, start: nat, end: nat, text: Bytes) {
    start <= end <= |src| && src[start..end] == text
  }

  // ---------- scanning printed text ----------

  lemma HoldsBytes(src: Bytes, start: nat, end: nat, text: Bytes)
    requires Holds(src, start, end, text)
    ensures end == start + |text| && forall k :: 0 <= k < |text| ==> src[start + k] == text[k]
  {
    assert forall k :: 0 <= k < |text| ==> src[start..end][k] == src[start + k];
  }

  lemma HoldsSplit(src: Bytes, start: nat, end: nat, a: Bytes, b: Bytes)
    requires Holds(src, start, end, a + b)
    ensures Holds(src, start, start + |a|, a) && Holds(src, start + |a|, end, b)
  {
    assert src[start..start + |a|] == src[start..end][..|a|] == a;
    assert src[start + |a|..end] == src[start..end][|a|..] == b;
  }

  /** A word or a number, up to its delimiter. */
  lemma WordToken(src: Bytes, start: nat, end: nat)
    requires start < end && Delimited(src, end)
    requires forall k :: start <= k < end ==> IdentByte(src[k])
    requires !CommentAt(src, start)
    ensures NextToken(src, start) == Token(WordKind(src, start, end), start, end)
  {
  }

  lemma NumberToken(src: Bytes, start: nat, end: nat, text: Bytes)
    requires Holds(src, start, end, text) && NumberText(text) && Delimited(src, end)
    ensures NextToken(src, start) == Token(Number, start, end)
  {
    HoldsBytes(src, start, end, text);
    assert forall k :: start <= k < end ==> src[k] == text[k - start];
    WordToken(src, start, end);
  }

  lemma {:induction false} StringEndUnits(src: Bytes, pos: nat, body: Bytes)
    requires Units(body) && pos + |body| < |src| && src[pos..pos + |body|] == body && src[pos + |body|] == QUOTE
    ensures StringEnd(src, pos) == pos + |body| + 1
    decreases |body|
  {
    if body != [] {
      var n := if body[0] == BACKSLASH then 2 else 1;
      assert src[pos] == body[0];
      assert src[pos + n..pos + |body|] == body[n..];
      StringEndUnits(src, pos + n, body[n..]);
    }
  }

  /** A quoted string's body: only escaped quotes inside, and it unquotes to the string. */
  lemma QuotedBody(s: Bytes, printable: int -> bool) returns (body: Bytes)
    ensures Quoted(s, printable) == [QUOTE] + body + [QUOTE]
    ensures Units(body) && Unquote([QUOTE] + body + [QUOTE]) == Some(s)
  {
    hide Unquote, Units, QuoteBody;
    if Plain(s) {
      body := s;
      PlainRoundTrip(s);
    } else {
      body := QuoteBody(s, printable);
      QuoteRoundTrip(s, printable);
      QuoteBodyUnquotes(s, printable, []);
    }
  }

  lemma QuoteToken(src: Bytes, start: nat, end: nat, body: Bytes)
    requires Holds(src, start, end, [QUOTE] + body + [QUOTE]) && Units(body)
    ensures NextToken(src, start) == Token(String, start, end)
  {
    hide Units, StringEnd;
    var text := [QUOTE] + body + [QUOTE];
    assert src[start] == src[start..end][0] == text[0] && src[end - 1] == src[start..end][|text| - 1] == QUOTE;
    HoldsSplit(src, start, end, [QUOTE] + body, [QUOTE]);
    HoldsSplit(src, start, end - 1, [QUOTE], body);
    StringEndUnits(src, start + 1, body);
  }

  lemma QuotedToken(src: Bytes, start: nat, end: nat, s: Bytes, printable: int -> bool)
    requires Holds(src, start, end, Quoted(s, printable))
    ensures NextToken(src, start) == Token(String, start, end) && Unquote(src[start..end]) == Some(s)
  {
    hide Unquote, Units, Quoted, NextToken;
    var body := QuotedBody(s, printable);
    QuoteToken(src, start, end, body);
  }

  /** The first token of a printed value is never a newline, a comma or a closing bracket. */
  lemma FirstToken(src: Bytes, start: nat, end: nat, v: Value, f: Format)
    requires Sound(f) && Holds(src, start, end, Print(v, f)) && Delimited(src, end)
    ensures NextToken(src, start).kind in {String, Number, Ident, LBracket} && start < end
  {
    hide Decimal, Quoted, NextToken, Delimited, Unquote;
    match v
    case VString(s) => QuotedToken(src, start, end, s, f.printable);
    case VBool(b) => FlagToken(src, start, end, b);
    case VInt(n) => NumberToken(src, start, end, Decimal(n));
    case VFloat(x) => NumberToken(src, start, end, f.show(x));
    case VList(items) =>
      HoldsBytes(src, start, end, Print(v, f));
      BracketToken(src, start);
  }

  lemma BracketToken(src: Bytes, start: nat)
    requires start < |src| && src[start] == 91
    ensures NextToken(src, start) == Token(LBracket, start, start + 1)
  {
    hide StringEnd, IdentEnd, LineEnd;
  }

  lemma FlagToken(src: Bytes, start: nat, end: nat, b: bool)
    requires Holds(src, start, end, if b then TRUE else FALSE) && Delimited(src, end)
    ensures NextToken(src, start) == Token(Ident, start, end)
  {
    var text := if b then TRUE else FALSE;
    HoldsBytes(src, start, end, text);
    assert forall k :: start <= k < end ==> src[k] == text[k - start];
    WordToken(src, start, end);
  }

  // ---------- the round trip ----------

  /** Scanning and parsing a printed value, whatever delimited text surrounds it, gives what `Restored` says and stops
      at the token after it. */
  lemma {:induction false} ValueParses(src: Bytes, start: nat, end: nat, v: Value, f: Format)
    requires Sound(f) && Holds(src, start, end, Print(v, f)) && Delimited(src, end)
    ensures ValueAt(src, NextToken(src, start), f)
            == if Restored(v, f).None? then None else Some(Parsed(Restored(v, f).value, NextToken(src, end)))
    decreases v, 1
  {
    hide Unquote, Quoted, NextToken, Decimal, ParseInt, NumberText, IdentByte, ItemsAt, RestoredItems, Units, StringEnd;
    match v
    case VString(s) =>
      QuotedToken(src, start, end, s, f.printable);
    case VBool(b) =>
      FlagToken(src, start, end, b);
    case VInt(n) =>
      NumberToken(src, start, end, Decimal(n));
      ParseDecimal(n);
    case VFloat(x) =>
      NumberToken(src, start, end, f.show(x));
    case VList(items) =>
      ListOpens(src, start, end, PrintItems(items, f));
      ItemsParse(src, start + 1, end - 1, items, f);
  }

  /** The brackets around a list's items. */
  lemma ListOpens(src: Bytes, start: nat, end: nat, body: Bytes)
    requires Holds(src, start, end, [91] + body + [93])
    ensures end == start + |body| + 2 && NextToken(src, start) == Token(LBracket, start, start + 1)
    ensures Holds(src, start + 1, end - 1, body) && src[end - 1] == 93
  {
    var text := [91] + body + [93];
    assert src[start] == src[start..end][0] == 91 && src[end - 1] == src[start..end][|text| - 1] == 93;
    HoldsSplit(src, start, end, [91] + body, [93]);
    HoldsSplit(src, start, end - 1, [91], body);
  }

  lemma CloseToken(src: Bytes, pos: nat)
    requires pos < |src| && src[pos] == 93
    ensures NextToken(src, pos) == Token(RBracket, pos, pos + 1) && Delimited(src, pos)
  {
  }

  lemma SeparatorToken(src: Bytes, pos: nat)
    requires Holds(src, pos, pos + 2, SEPARATOR)
    ensures NextToken(src, pos) == Token(Comma, pos, pos + 1) && NextToken(src, pos + 1) == NextToken(src, pos + 2)
    ensures Delimited(src, pos)
  {
    hide StringEnd, IdentEnd, WordKind, LineEnd;
    HoldsBytes(src, pos, pos + 2, SEPARATOR);
    assert src[pos + 0] == 44 && src[pos + 1] == 32;
    assert SkipBlanks(src, pos) == pos;
  }

  lemma {:induction false} ItemsParse(src: Bytes, start: nat, end: nat, items: seq<Value>, f: Format)
    requires Sound(f) && Holds(src, start, end, PrintItems(items, f)) && end < |src| && src[end] == 93
    ensures ItemsAt(src, NextToken(src, start), f)
            == if RestoredItems(items, f).None? then None
               else Some(Parsed(RestoredItems(items, f).value, NextToken(src, end + 1)))
    decreases items, 0
  {
    hide NextToken, Print, Restored, ValueAt, ItemsAt, Sound, Delimited;
    CloseToken(src, end);
    if items == [] {
      ItemsStep(src, NextToken(src, start), f);
      assert start == end;
    } else {
      var first := Print(items[0], f);
      var mid := start + |first|;
      var tail := if |items| == 1 then [] else SEPARATOR + PrintItems(items[1..], f);
      HoldsSplit(src, start, end, first, tail);
      if |items| > 1 {
        HoldsSplit(src, mid, end, SEPARATOR, PrintItems(items[1..], f));
        SeparatorToken(src, mid);
      } else {
        assert src[end..end] == PrintItems(items[1..], f);
      }
      var next := if |items| == 1 then end else mid + 2;
      ItemsParse(src, next, end, items[1..], f);
      FirstToken(src, start, mid, items[0], f);
      ValueParses(src, start, mid, items[0], f);
      OneItem(src, NextToken(src, start), Restored(items[0], f), NextToken(src, mid), NextToken(src, next), f);
    }
  }

  /** A list that goes on with one value, or stops at one that does not parse. */
  lemma OneItem(src: Bytes, t: Token, v: Option<Value>, u: Token, w: Token, f: Format)
    requires Standing(src, t) && Standing(src, u) && t.kind != Newline && t.kind != RBracket
    requires ValueAt(src, t, f) == if v.None? then None else Some(Parsed(v.value, u))
    requires w == if u.kind == Comma then After(src, u) else u
    ensures var rest := ItemsAt(src, w, f);
            ItemsAt(src, t, f)
            == if v.None? || rest.None? then None else Some(Parsed([v.value] + rest.value.value, rest.value.tok))
  {
    hide NextToken, ValueAt, ItemsAt;
    ItemsStep(src, t, f);
  }

  /** A value comes back unchanged exactly when every float in it prints with a dot. */
  lemma {:induction false} RestoredUnchanged(v: Value, f: Format)
    requires Sound(f)
    ensures Restored(v, f) == Some(v) <==> Dotted(v, f)
    decreases v, 1
  {
    match v
    case VList(items) => RestoredItemsUnchanged(items, f);
    case _ =>
  }

  lemma {:induction false} RestoredItemsUnchanged(items: seq<Value>, f: Format)
    requires Sound(f)
    ensures RestoredItems(items, f) == Some(items) <==> forall k :: 0 <= k < |items| ==> Dotted(items[k], f)
    decreases items, 0
  {
    if items != [] {
      RestoredUnchanged(items[0], f);
      RestoredItemsUnchanged(items[1..], f);
      assert items == [items[0]] + items[1..];
      assert (forall k :: 0 <= k < |items| ==> Dotted(items[k], f))
          <==> Dotted(items[0], f) && forall k :: 0 <= k < |items[1..]| ==> Dotted(items[1..][k], f);
      var v, rest := Restored(items[0], f), RestoredItems(items[1..], f);
      if v.Some? && rest.Some? {
        assert ([v.value] + rest.value)[0] == v.value && ([v.value] + rest.value)[1..] == rest.value;
      }
    }
  }

  /** A float that prints as "1" comes back as the integer 1. */
  lemma WholeFloatDeviates()
    ensures var f := Format((_: real) => [49], (_: Bytes) => None, (_: int) => true);
            Sound(f) && !Dotted(VFloat(1.0), f) && Restored(VFloat(1.0), f) == Some(VInt(1))
  {
    assert [49][..0] == [];
  }

  /** Printing any value and parsing it gives it back and stops at the delimiter, exactly when no float in it prints
      without a dot. */
  lemma ValueRoundTrip(before: Bytes, v: Value, after: Bytes, f: Format)
    requires Sound(f) && (after != [] ==> !IdentByte(after[0]))
    ensures var src, end := before + Print(v, f) + after, |before| + |Print(v, f)|;
            ValueAt(src, NextToken(src, |before|), f) == Some(Parsed(v, NextToken(src, end))) <==> Dotted(v, f)
  {
    hide Print, ValueAt, NextToken, Restored, Dotted, IdentByte, Sound;
    var src, end := before + Print(v, f) + after, |before| + |Print(v, f)|;
    assert src[|before|..end] == Print(v, f);
    assert end < |src| ==> src[end] == after[0];
    ValueParses(src, |before|, end, v, f);
    RestoredUnchanged(v, f);
  }

  /** No integer, string, flag or nested list of them contains a float. */
  predicate FloatFree(v: Value)
    decreases v
  {
    match v
    case VFloat(_) => false
    case VList(items) => forall k :: 0 <= k < |items| ==> FloatFree(items[k])
    case _ => true
  }

  lemma {:induction false} FloatFreeDotted(v: Value, f: Format)
    requires FloatFree(v)
    ensures Dotted(v, f)
    decreases v
  {
    if v.VList? {
      forall k | 0 <= k < |v.items| ensures Dotted(v.items[k], f) {
        FloatFreeDotted(v.items[k], f);
      }
    }
  }

  // ---------- the printer ----------

  method AppendString(dst: Bytes, s: Bytes, printable: int -> bool) returns (r: Bytes)
    ensures r == dst + Quoted(s, printable)
  {
    var i := 0;
    while i < |s|
      invariant 0 <= i <= |s| && Plain(s[..i])
    {
      if s[i] < 0x20 || s[i] == QUOTE || s[i] == BACKSLASH || s[i] >= 0x80 {
        assert !Plain(s);
        return dst + ([QUOTE] + QuoteBody(s, printable) + [QUOTE]);
      }
      assert s[..i + 1] == s[..i] + [s[i]];
      i := i + 1;
    }
    assert s[..|s|] == s;
    r := dst + [QUOTE];
    r := r + s;
    r := r + [QUOTE];
  }

  /** The items printed so far and the rest make up the whole list. */
  lemma PrintItemsStep(items: seq<Value>, i: nat, f: Format)
    requires i < |items|
    ensures PrintItems(items[i..], f)
            == Print(items[i], f) + if i + 1 == |items| then [] else SEPARATOR + PrintItems(items[i + 1..], f)
  {
    assert items[i..][1..] == items[i + 1..];
  }

  method AppendValue(dst: Bytes, v: Value, f: Format) returns (r: Bytes)
    ensures r == dst + Print(v, f)
    decreases v, 1
  {
    match v
    case VString(s) => r := AppendString(dst, s, f.printable);
    case VBool(b) => r := dst + if b then TRUE else FALSE;
    case VInt(n) => r := dst + Decimal(n);
    case VFloat(x) => r := dst + f.show(x);
    case VList(items) => r := AppendItems(dst, items, f);
  }

  lemma PrintNothing(f: Format)
    ensures PrintItems([], f) == []
  {
  }

  /** `appendBCLAnySlice`. */
  method AppendItems(dst: Bytes, items: seq<Value>, f: Format) returns (r: Bytes)
    ensures r == dst + ([91] + PrintItems(items, f) + [93])
    decreases items, 0
  {
    hide Print, PrintItems;
    PrintNothing(f);
    assert items[|items|..] == [];
    r := dst + [91];
    ghost var whole := dst + [91] + PrintItems(items, f);
    assert items[0..] == items;
    var i := 0;
    while i < |items|
      invariant 0 <= i <= |items|
      invariant whole == r + if 0 < i < |items| then SEPARATOR + PrintItems(items[i..], f)
                else PrintItems(items[i..], f)
    {
      PrintItemsStep(items, i, f);
      if i > 0 {
        r := r + SEPARATOR;
      }
      r := AppendValue(r, items[i], f);
      i := i + 1;
    }
    assert r == whole;
    r := r + [93];
  }

  // ---------- the parser ----------

  class BclParser {
    const scanner: Scan.BclScanner
    const format: Format
    var tok: Token

    ghost predicate Valid()
      reads this, scanner
    {
      scanner.Valid() && Standing(scanner.src, tok) && scanner.pos == tok.end
    }

    /** Starts at the first token. */
    constructor (scanner: Scan.BclScanner, format: Format)
      requires scanner.Valid()
      modifies scanner
      ensures Valid() && this.scanner == scanner && this.format == format
              && tok == NextToken(scanner.src, old(scanner.pos))
    {
      this.scanner := scanner;
      this.format := format;
      tok := Token(EOF, 0, 0);
      new;
      tok := this.scanner.Next();
    }

    method Next()
      requires Valid()
      modifies this`tok, scanner
      ensures Valid() && tok == After(scanner.src, old(tok))
    {
      tok := scanner.Next();
    }

    method SkipLines()
      requires Valid()
      modifies this`tok, scanner
      ensures Valid() && tok == SkipNewlines(scanner.src, old(tok))
    {
      ghost var start := tok;
      while tok.kind == Newline
        invariant Valid() && SkipNewlines(scanner.src, tok) == SkipNewlines(scanner.src, start)
        decreases Left(scanner.src, tok)
      {
        Next();
      }
    }

    method ParseValue() returns (r: Option<Value>)
      requires Valid()
      modifies this`tok, scanner
      ensures Valid()
      ensures var want := ValueAt(scanner.src, old(tok), format);
              r.Some? == want.Some? && (r.Some? ==> r.value == want.value.value && tok == want.value.tok)
      decreases Left(scanner.src, tok), 0
    {
      var start := tok;
      match tok.kind
      case String =>
        Next();
        r := Some(VString(Text(scanner.src, start)));
      case Number =>
        Next();
        r := NumberOf(Raw(scanner.src, start), format);
      case Ident =>
        Next();
        r := Some(WordOf(Raw(scanner.src, start)));
      case LBracket =>
        Next();
        var items := ParseItems();
        r := if items.None? then None else Some(VList(items.value));
      case _ =>
        r := None;
    }

    /** The loop over a list's items. */
    method ParseItems() returns (r: Option<seq<Value>>)
      requires Valid()
      modifies this`tok, scanner
      ensures Valid()
      ensures var want := ItemsAt(scanner.src, old(tok), format);
              r.Some? == want.Some? && (r.Some? ==> r.value == want.value.value && tok == want.value.tok)
      decreases Left(scanner.src, tok), 1
    {
      hide ValueAt, ItemsAt, NextToken, SkipNewlines, LineOf, ColOf;
      ghost var src := scanner.src;
      ghost var want := ItemsAt(src, tok, format);
      var out := [];
      while true
        invariant Valid() && Left(src, tok) <= old(Left(scanner.src, tok))
        invariant var rest := ItemsAt(src, tok, format);
                  && want.Some? == rest.Some?
                  && (want.Some? ==> want.value.value == out + rest.value.value && want.value.tok == rest.value.tok)
        decreases Left(src, tok)
      {
        ItemsStep(src, tok, format);
        SkipLines();
        if tok.kind == RBracket {
          Next();
          return Some(out);
        }
        var value := ParseValue();
        if value.None? {
          return None;
        }
        out := out + [value.value];
        if tok.kind == Comma {
          Next();
        }
      }
    }
  }
}
