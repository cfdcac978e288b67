/** The byte scanner of bcl/bcl.go. */
module BclScanner {
  import opened Utf8
  import opened GoQuote

  datatype Kind =
    | EOF | Ident | String | Number | LBrace | RBrace | LBracket | RBracket | Comma | Equal | PlusEqual | Newline

  datatype Token = Token(kind: Kind, start: nat, end: nat)

  predicate IdentByte(b: Byte) {
    97 <= b <= 122 || 65 <= b <= 90 || 48 <= b <= 57 || b == 95 || b == 46 || b == 45 || b == 47 || b == 58
  }

  predicate NumberByte(b: Byte) {
    b == 45 || b == 46 || 48 <= b <= 57
  }

  predicate Blank(b: Byte) {
    b == 32 || b == 9 || b == 13
  }

  /** `#` or `//`. */
  predicate CommentAt(src: Bytes, pos: nat) {
    pos < |src| && (src[pos] == 35 || (src[pos] == 47 && pos + 1 < |src| && src[pos + 1] == 47))
  }

  function LineEnd(src: Bytes, pos: nat): (p: nat)
    requires pos <= |src|
    ensures pos <= p <= |src|
    decreases |src| - pos
  {
    if pos < |src| && src[pos] != NEWLINE then LineEnd(src, pos + 1) else pos
  }

  /** The first byte that is neither blank nor in a comment. */
  function SkipBlanks(src: Bytes, pos: nat): (p: nat)
    requires pos <= |src|
    ensures pos <= p <= |src|
    decreases |src| - pos
  {
    if pos < |src| && Blank(src[pos]) then SkipBlanks(src, pos + 1)
    else if CommentAt(src, pos) then SkipBlanks(src, LineEnd(src, pos + 1))
    else pos
  }

  /** Just past the closing quote, or the end of the source. */
  function StringEnd(src: Bytes, pos: nat): (p: nat)
    requires pos <= |src|
    ensures pos <= p <= |src|
    decreases |src| - pos
  {
    if pos == |src| then pos
    else if src[pos] == BACKSLASH && pos + 1 < |src| then StringEnd(src, pos + 2)
    else if src[pos] == QUOTE then pos + 1
    else StringEnd(src, pos + 1)
  }

  function IdentEnd(src: Bytes, pos: nat): (p: nat)
    requires pos <= |src|
    ensures pos <= p <= |src|
    ensures forall k :: pos <= k < p ==> IdentByte(src[k])
    ensures p < |src| ==> !IdentByte(src[p])
    decreases |src| - pos
  {
    if pos < |src| && IdentByte(src[pos]) then IdentEnd(src, pos + 1) else pos
  }

  /** A word is a number if it starts with a digit or a minus sign and goes on with number bytes only. */
  function WordKind(src: Bytes, start: nat, end: nat): Kind
    requires start < end <= |src|
  {
    if (src[start] == 45 || 48 <= src[start] <= 57) && forall k :: start < k < end ==> NumberByte(src[k]) then Number
        else Ident
  }

  function Punctuation(b: Byte): Kind {
    if b == NEWLINE then Newline else if b == 123 then LBrace else if b == 125 then RBrace else if b == 91 then LBracket
    else if b == 93 then RBracket else if b == 44 then Comma else if b == 61 then Equal else EOF
  }

  /** `bclScanner.next`: the token at or after `pos`. The scanner then stands at its end. */
  function NextToken(src: Bytes, pos: nat): (t: Token)
    requires pos <= |src|
    ensures pos <= t.start <= t.end <= |src|
    ensures t.kind == EOF ==> t.start == t.end == |src|
    ensures t.kind != EOF ==> t.start < t.end
  {
    var p := SkipBlanks(src, pos);
    if p == |src| then Token(EOF, p, p)
    else
      var b := src[p];
      if Punctuation(b) != EOF then Token(Punctuation(b), p, p + 1)
      else if b == 43 && p + 1 < |src| && src[p + 1] == 61 then Token(PlusEqual, p, p + 2)
      else if b == QUOTE then Token(String, p, StringEnd(src, p + 1))
      else if IdentByte(b) then Token(WordKind(src, p, IdentEnd(src, p + 1)), p, IdentEnd(src, p + 1))
      else Token(Ident, p, p + 1)
  }

  // ---------- positions ----------

  /** One more than the newlines before `pos`. */
  function LineOf(src: Bytes, pos: nat): nat
    requires pos <= |src|
  {
    if pos == 0 then 1 else LineOf(src, pos - 1) + if src[pos - 1] == NEWLINE then 1 else 0
  }

  /** One more than the bytes since the last newline. */
  function ColOf(src: Bytes, pos: nat): nat
    requires pos <= |src|
  {
    if pos == 0 || src[pos - 1] == NEWLINE then 1 else ColOf(src, pos - 1) + 1
  }

  class BclScanner {
    const src: Bytes
    var pos: nat
    var line: nat
    var col: nat

    /** The line and column always name the scanner's position. */
    ghost predicate Valid()
      reads this
    {
      pos <= |src| && line == LineOf(src, pos) && col == ColOf(src, pos)
    }

    constructor (src: Bytes)
      ensures Valid() && this.src == src && pos == 0
    {
      this.src := src;
      pos, line, col := 0, 1, 1;
    }

    /** Passes one byte that is not a newline. */
    method Advance()
      requires Valid() && pos < |src| && src[pos] != NEWLINE
      modifies this
      ensures Valid() && pos == old(pos) + 1
    {
      pos := pos + 1;
      col := col + 1;
    }

    method AdvanceAny()
      requires Valid() && pos < |src|
      modifies this
      ensures Valid() && pos == old(pos) + 1
    {
      if src[pos] == NEWLINE {
        line := line + 1;
        col := 1;
      } else {
        col := col + 1;
      }
      pos := pos + 1;
    }

    method SkipBlank()
      requires Valid()
      modifies this
      ensures Valid() && pos == SkipBlanks(src, old(pos))
    {
      ghost var start := pos;
      while pos < |src|
        invariant Valid() && SkipBlanks(src, pos) == SkipBlanks(src, start)
        decreases |src| - pos
      {
        if Blank(src[pos]) {
          Advance();
          continue;
        }
        if CommentAt(src, pos) {
          ghost var p := pos;
          Advance();
          while pos < |src| && src[pos] != NEWLINE
            invariant Valid() && p < pos && LineEnd(src, pos) == LineEnd(src, p + 1)
            decreases |src| - pos
          {
            Advance();
          }
          continue;
        }
        break;
      }
    }

    method SkipString()
      requires Valid()
      modifies this
      ensures Valid() && pos == StringEnd(src, old(pos))
    {
      ghost var start := pos;
      while pos < |src|
        invariant Valid() && StringEnd(src, pos) == StringEnd(src, start)
        decreases |src| - pos
      {
        var c := src[pos];
        if c == BACKSLASH && pos + 1 < |src| {
          Advance();
          AdvanceAny();
          continue;
        }
        AdvanceAny();
        if c == QUOTE {
          break;
        }
      }
    }

    /** `next`. */
    method Next() returns (tok: Token)
      requires Valid()
      modifies this
      ensures Valid() && tok == NextToken(src, old(pos)) && pos == tok.end
    {
      hide LineOf, ColOf, StringEnd, SkipBlanks;
      SkipBlank();
      if pos == |src| {
        return Token(EOF, pos, pos);
      }
      var start := pos;
      var ch := src[pos];
      if Punctuation(ch) != EOF {
        AdvanceAny();
        return Token(Punctuation(ch), start, pos);
      }
      if ch == 43 && pos + 1 < |src| && src[pos + 1] == 61 {
        Advance();
        Advance();
        return Token(PlusEqual, start, pos);
      }
      if ch == QUOTE {
        Advance();
        SkipString();
        return Token(String, start, pos);
      }
      if IdentByte(ch) {
        var kind := Ident;
        if ch == 45 || 48 <= ch <= 57 {
          kind := Number;
        }
        Advance();
        while pos < |src| && IdentByte(src[pos])
          invariant Valid() && start < pos && IdentEnd(src, pos) == IdentEnd(src, start + 1)
          invariant kind == WordKind(src, start, pos)
          decreases |src| - pos
        {
          if kind == Number && !NumberByte(src[pos]) {
            kind := Ident;
          }
          Advance();
        }
        return Token(kind, start, pos);
      }
      Advance();
      tok := Token(Ident, start, pos);
    }
  }
}
