/** Comments and blanks (bcl/bcl.go): a text with comments has the tokens of the text without them. */
module BclTokens {
  import opened Utf8
  import opened GoQuote
  import opened BclScanner

  // ---------- a token depends on what follows ----------

  lemma {:induction false} LineEndShifts(x: Bytes, b: Bytes, pos: nat)
    requires pos <= |b|
    ensures LineEnd(x + b, |x| + pos) == |x| + LineEnd(b, pos)
    decreases |b| - pos
  {
    if pos < |b| && b[pos] != NEWLINE {
      LineEndShifts(x, b, pos + 1);
    }
  }

  lemma {:induction false} BlanksShift(x: Bytes, b: Bytes, pos: nat)
    requires pos <= |b|
    ensures SkipBlanks(x + b, |x| + pos) == |x| + SkipBlanks(b, pos)
    decreases |b| - pos
  {
    var s := x + b;
    assert pos < |b| ==> s[|x| + pos] == b[pos];
    assert pos + 1 < |b| ==> s[|x| + pos + 1] == b[pos + 1];
    if pos < |b| && Blank(b[pos]) {
      BlanksShift(x, b, pos + 1);
    } else if CommentAt(b, pos) {
      LineEndShifts(x, b, pos + 1);
      BlanksShift(x, b, LineEnd(b, pos + 1));
    }
  }

  lemma {:induction false} StringEndShifts(x: Bytes, b: Bytes, pos: nat)
    requires pos <= |b|
    ensures StringEnd(x + b, |x| + pos) == |x| + StringEnd(b, pos)
    decreases |b| - pos
  {
    if pos < |b| {
      assert (x + b)[|x| + pos] == b[pos];
      if b[pos] == BACKSLASH && pos + 1 < |b| {
        StringEndShifts(x, b, pos + 2);
      } else if b[pos] != QUOTE {
        StringEndShifts(x, b, pos + 1);
      }
    }
  }

  lemma {:induction false} IdentEndShifts(x: Bytes, b: Bytes, pos: nat)
    requires pos <= |b|
    ensures IdentEnd(x + b, |x| + pos) == |x| + IdentEnd(b, pos)
    decreases |b| - pos
  {
    if pos < |b| {
      assert (x + b)[|x| + pos] == b[pos];
      if IdentByte(b[pos]) {
        IdentEndShifts(x, b, pos + 1);
      }
    }
  }

  lemma WordKindShifts(x: Bytes, b: Bytes, start: nat, end: nat)
    requires start < end <= |b|
    ensures WordKind(x + b, |x| + start, |x| + end) == WordKind(b, start, end)
  {
    var s, n := x + b, |x|;
    assert forall k :: 0 <= k < |b| ==> s[n + k] == b[k];
    assert forall k :: n + start < k < n + end ==> s[k] == b[k - n];
    assert (forall k :: n + start < k < n + end ==> NumberByte(s[k])) <==>
           forall k :: start < k < end ==> NumberByte(b[k]) by {
      if forall k :: n + start < k < n + end ==> NumberByte(s[k]) {
        forall k | start < k < end ensures NumberByte(b[k]) { assert NumberByte(s[n + k]); }
      }
    }
  }

  function Shifted(t: Token, n: nat): Token {
    Token(t.kind, n + t.start, n + t.end)
  }

  lemma TokenShifts(x: Bytes, b: Bytes, pos: nat)
    requires pos <= |b|
    ensures NextToken(x + b, |x| + pos) == Shifted(NextToken(b, pos), |x|)
  {
    hide WordKind, StringEnd, IdentEnd, SkipBlanks;
    var p := SkipBlanks(b, pos);
    BlanksShift(x, b, pos);
    if p < |b| {
      assert (x + b)[|x| + p] == b[p];
      assert p + 1 < |b| ==> (x + b)[|x| + p + 1] == b[p + 1];
      StringEndShifts(x, b, p + 1);
      IdentEndShifts(x, b, p + 1);
      if IdentByte(b[p]) {
        WordKindShifts(x, b, p, IdentEnd(b, p + 1));
      }
    }
  }

  // ---------- the tokens of a text ----------

  datatype Lexeme = Lexeme(kind: Kind, raw: Bytes)

  /** The tokens from a position on, without their places. */
  function LexemesFrom(src: Bytes, pos: nat): seq<Lexeme>
    requires pos <= |src|
    decreases |src| - pos
  {
    var t := NextToken(src, pos);
    if t.kind == EOF then [] else [Lexeme(t.kind, src[t.start..t.end])] + LexemesFrom(src, t.end)
  }

  /** What stands before a position does not matter. */
  lemma {:induction false} LexemesShift(x: Bytes, b: Bytes, pos: nat)
    requires pos <= |b|
    ensures LexemesFrom(x + b, |x| + pos) == LexemesFrom(b, pos)
    decreases |b| - pos
  {
    hide NextToken;
    TokenShifts(x, b, pos);
    var t := NextToken(b, pos);
    if t.kind != EOF {
      assert (x + b)[|x| + t.start..|x| + t.end] == b[t.start..t.end];
      LexemesShift(x, b, t.end);
    }
  }

  // ---------- comments ----------

  /** A hash sign or two slashes and the rest of the line. */
  predicate Comment(c: Bytes) {
    ([35] <= c || [47, 47] <= c) && NEWLINE !in c
  }

  /** A comment that ends with its line, or with the text, is not there for the tokens: they are those of the text
      without it. */
  lemma CommentIgnored(before: Bytes, c: Bytes, after: Bytes)
    requires Comment(c) && (after != [] ==> after[0] == NEWLINE)
    ensures LexemesFrom(before + c + after, |before|) == LexemesFrom(before + after, |before|)
  {
    hide NextToken;
    assert before + c + after == before + (c + after);
    LexemesShift(before, c + after, 0);
    LexemesShift(before, after, 0);
    LexemesShift(c, after, 0);
    CommentSkipped(c, after);
  }

  lemma CommentSkipped(c: Bytes, after: Bytes)
    requires Comment(c) && (after != [] ==> after[0] == NEWLINE)
    ensures NextToken(c + after, 0) == NextToken(c + after, |c|)
  {
    var s := c + after;
    assert s[0] == c[0] && (|c| > 1 ==> s[1] == c[1]);
    assert forall k :: 0 <= k < |c| ==> s[k] == c[k] && c[k] in c;
    LineEndAt(s, 1, |c|);
    assert CommentAt(s, 0);
    assert SkipBlanks(s, 0) == SkipBlanks(s, |c|);
  }

  lemma {:induction false} LineEndAt(s: Bytes, pos: nat, end: nat)
    requires pos <= end <= |s| && (forall k :: pos <= k < end ==> s[k] != NEWLINE) && (end < |s| ==> s[end] == NEWLINE)
    ensures LineEnd(s, pos) == end
    decreases end - pos
  {
    if pos < end {
      LineEndAt(s, pos + 1, end);
    }
  }

  /** Blanks before a token are ignored too. */
  lemma {:induction false} BlankIgnored(before: Bytes, gap: Bytes, after: Bytes)
    requires forall k :: 0 <= k < |gap| ==> gap[k] in [32, 9, 13]
    ensures LexemesFrom(before + gap + after, |before|) == LexemesFrom(before + after, |before|)
  {
    hide NextToken;
    assert before + gap + after == before + (gap + after);
    LexemesShift(before, gap + after, 0);
    LexemesShift(before, after, 0);
    LexemesShift(gap, after, 0);
    GapSkipped(gap + after, 0, |gap|);
  }

  lemma {:induction false} GapSkipped(s: Bytes, pos: nat, end: nat)
    requires pos <= end <= |s| && forall k :: pos <= k < end ==> s[k] in [32, 9, 13]
    ensures NextToken(s, pos) == NextToken(s, end)
    decreases end - pos
  {
    if pos < end {
      GapSkipped(s, pos + 1, end);
      assert SkipBlanks(s, pos) == SkipBlanks(s, pos + 1);
    }
  }

  /** Nothing else is skipped: a text without a hash sign or two slashes in a row is blank up to its first token. */
  lemma {:induction false} OnlyBlanksSkipped(s: Bytes, pos: nat)
    requires pos <= |s| && 35 !in s[pos..] && forall k :: pos <= k < |s| - 1 ==> !(s[k] == 47 && s[k + 1] == 47)
    ensures forall k :: pos <= k < NextToken(s, pos).start ==> s[k] in [32, 9, 13]
    ensures NextToken(s, pos).start < |s| ==> s[NextToken(s, pos).start] !in [32, 9, 13]
    decreases |s| - pos
  {
    assert pos < |s| ==> s[pos] == s[pos..][0] && s[pos] in s[pos..];
    if pos < |s| && s[pos] in [32, 9, 13] {
      assert s[pos + 1..] == s[pos..][1..];
      OnlyBlanksSkipped(s, pos + 1);
      assert SkipBlanks(s, pos) == SkipBlanks(s, pos + 1);
    } else {
      assert SkipBlanks(s, pos) == pos;
    }
  }

  /** Letters, digits and _ . - / : make words. */
  predicate WordByte(b: Byte) {
    ('a' as int <= b <= 'z' as int) || ('A' as int <= b <= 'Z' as int) || ('0' as int <= b <= '9' as int)
    || b in [95, 46, 45, 47, 58]
  }

  predicate NumberLike(w: Bytes) {
    w != [] && ('0' as int <= w[0] <= '9' as int || w[0] == 45)
    && forall k :: 0 < k < |w| ==> '0' as int <= w[k] <= '9' as int || w[k] in [45, 46]
  }

  /** A word up to a byte that cannot go on it is one token, a number if it looks like one. */
  lemma WordExactly(w: Bytes, after: Bytes)
    requires w != [] && (forall k :: 0 <= k < |w| ==> WordByte(w[k]))
    requires w[0] == 47 && |w + after| > 1 ==> (w + after)[1] != 47
    requires after != [] ==> !WordByte(after[0])
    ensures NextToken(w + after, 0) == Token(if NumberLike(w) then Number else Ident, 0, |w|)
  {
    var s := w + after;
    assert forall k :: 0 <= k < |w| ==> s[k] == w[k];
    WordEndsAt(s, 1, |w|);
  }

  lemma {:induction false} WordEndsAt(s: Bytes, pos: nat, end: nat)
    requires pos <= end <= |s| && (forall k :: pos <= k < end ==> IdentByte(s[k])) && (end < |s| ==> !IdentByte(s[end]))
    ensures IdentEnd(s, pos) == end
    decreases end - pos
  {
    if pos < end {
      WordEndsAt(s, pos + 1, end);
    }
  }

  /** From a quote to the next one that is not behind a backslash is one token, line breaks included; where there is
      none, the rest of the text is. */
  lemma StringExactly(body: Bytes, after: Bytes)
    requires Units(body)
    ensures NextToken([QUOTE] + body + [QUOTE] + after, 0) == Token(String, 0, |body| + 2)
    ensures NextToken([QUOTE] + body, 0) == Token(String, 0, |body| + 1)
    ensures NextToken([QUOTE] + body + [BACKSLASH], 0) == Token(String, 0, |body| + 2)
  {
    hide Units, SkipBlanks;
    var s, t, u := [QUOTE] + body + [QUOTE] + after, [QUOTE] + body, [QUOTE] + body + [BACKSLASH];
    StringStarts(s);
    StringStarts(t);
    StringStarts(u);
    UnitsPassed(s, 1, body);
    UnitsPassed(t, 1, body);
    UnitsPassed(u, 1, body);
  }

  lemma StringStarts(s: Bytes)
    requires s != [] && s[0] == QUOTE
    ensures NextToken(s, 0) == Token(String, 0, StringEnd(s, 1))
  {
    hide StringEnd;
  }

  lemma {:induction false} UnitsPassed(s: Bytes, pos: nat, body: Bytes)
    requires Units(body) && pos + |body| <= |s| && s[pos..pos + |body|] == body
    ensures StringEnd(s, pos) == StringEnd(s, pos + |body|)
    decreases |body|
  {
    if body != [] {
      assert s[pos] == body[0];
      var n := if body[0] == BACKSLASH then 2 else 1;
      assert s[pos + n..pos + n + |body[n..]|] == body[n..];
      UnitsPassed(s, pos + n, body[n..]);
    }
  }

  /** A plus and an equals sign are one token, a plus alone is a word of its own. */
  lemma PlusExactly(after: Bytes)
    ensures NextToken([43, 61] + after, 0) == Token(PlusEqual, 0, 2)
    ensures after != [] && after[0] != 61 ==> NextToken([43] + after, 0) == Token(Ident, 0, 1)
  {
    var s, t: Bytes := [43, 61] + after, [43] + after;
    assert s[0] == 43 && s[1] == 61 && t[0] == 43 && (after != [] ==> t[1] == after[0]);
  }
}
