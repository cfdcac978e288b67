/** Go's `strconv.AppendQuote` and `strconv.Unquote` for double-quoted strings. `printable` is the Unicode part
    of `strconv.IsPrint`, which may be any table. */
module GoQuote {
  import opened Wrappers
  import opened Utf8

  const QUOTE: Byte := 34
  const BACKSLASH: Byte := 92
  const NEWLINE: Byte := 10

  predicate IsPrint(r: int, printable: int -> bool) {
    if r < 0x80 then 0x20 <= r < 0x7F else printable(r)
  }

  function HexDigit(d: int): Byte
    requires 0 <= d < 16
  {
    if d < 10 then 48 + d else 87 + d
  }

  function Unhex(b: Byte): Option<int> {
    if 48 <= b <= 57 then Some(b - 48)
    else if 97 <= b <= 102 then Some(b - 87)
    else if 65 <= b <= 70 then Some(b - 55)
    else None
  }

  function Hex(v: nat, n: nat): (s: Bytes)
    ensures |s| == n
  {
    if n == 0 then [] else Hex(v / 16, n - 1) + [HexDigit(v % 16)]
  }

  function ParseHex(s: Bytes): Option<int> {
    if s == [] then Some(0)
    else
      var front, d := ParseHex(s[..|s| - 1]), Unhex(s[|s| - 1]);
      if front.None? || d.None? then None else Some(front.value * 16 + d.value)
  }

  function Pow16(n: nat): nat {
    if n == 0 then 1 else 16 * Pow16(n - 1)
  }

  lemma {:induction false} HexRoundTrip(v: nat, n: nat)
    requires v < Pow16(n)
    ensures ParseHex(Hex(v, n)) == Some(v)
  {
    if n > 0 {
      HexRoundTrip(v / 16, n - 1);
      var s := Hex(v, n);
      assert s[..n - 1] == Hex(v / 16, n - 1) && s[n - 1] == HexDigit(v % 16);
    }
  }

  lemma {:induction false} HexPlain(v: nat, n: nat)
    ensures forall b :: b in Hex(v, n) ==> b != QUOTE && b != BACKSLASH
  {
    if n > 0 {
      HexPlain(v / 16, n - 1);
    }
  }

  // ---------- quoting ----------

  /** The letter of a control character's short escape. */
  function ShortEscape(r: int): Option<Byte> {
    if r == 7 then Some(97) else if r == 8 then Some(98) else if r == 12 then Some(102) else if r == 10 then Some(110)
    else if r == 13 then Some(114) else if r == 9 then Some(116) else if r == 11 then Some(118) else None
  }

  /** `appendEscapedRune`. */
  function EscapeRune(r: int, printable: int -> bool): Bytes
    requires ValidRune(r)
  {
    if r == QUOTE || r == BACKSLASH then [BACKSLASH, r]
    else if IsPrint(r, printable) then EncodeRune(r)
    else if ShortEscape(r).Some? then [BACKSLASH, ShortEscape(r).value]
    else if r < 0x20 || r == 0x7F then [BACKSLASH, 120] + Hex(r, 2)
    else if r < 0x10000 then [BACKSLASH, 117] + Hex(r, 4)
    else [BACKSLASH, 85] + Hex(r, 8)
  }

  /** The escape of the rune, or of the broken byte, at the front of `s`. */
  function EscapeFront(s: Bytes, printable: int -> bool): Bytes
    requires s != []
  {
    if Broken(s) then [BACKSLASH, 120] + Hex(s[0], 2)
    else
      EncodeDecode(s);
      EscapeRune(DecodeRune(s).0, printable)
  }

  /** What `AppendQuote` writes between the quotes. */
  function QuoteBody(s: Bytes, printable: int -> bool): Bytes
    decreases |s|
  {
    if s == [] then [] else EscapeFront(s, printable) + QuoteBody(s[DecodeRune(s).1..], printable)
  }

  // ---------- unquoting ----------

  function ShortUnescape(c: Byte): Option<int> {
    if c == 97 then Some(7) else if c == 98 then Some(8) else if c == 102 then Some(12) else if c == 110 then Some(10)
    else if c == 114 then Some(13) else if c == 116 then Some(9) else if c == 118 then Some(11) else None
  }

  function HexCount(c: Byte): nat {
    if c == 120 then 2 else if c == 117 then 4 else if c == 85 then 8 else 0
  }

  function Octal(b: Byte): Option<int> {
    if 48 <= b <= 55 then Some(b - 48) else None
  }

  datatype Unquoted = Unquoted(value: int, multibyte: bool, width: nat)

  /** `UnquoteChar` for a double-quoted string. */
  function UnquoteChar(s: Bytes): (u: Option<Unquoted>)
    requires s != []
    ensures u.Some? ==> 1 <= u.value.width <= |s|
  {
    if s[0] == QUOTE then None
    else if s[0] >= 0x80 then Some(Unquoted(DecodeRune(s).0, true, DecodeRune(s).1))
    else if s[0] != BACKSLASH then Some(Unquoted(s[0], false, 1))
    else if |s| <= 1 then None
    else
      var c := s[1];
      if ShortUnescape(c).Some? then Some(Unquoted(ShortUnescape(c).value, false, 2))
      else if HexCount(c) > 0 then
        var n := HexCount(c);
        if |s| < 2 + n then None
        else
          var v := ParseHex(s[2..2 + n]);
          if v.None? then None
          else if c == 120 then Some(Unquoted(v.value, false, 4))
          else if !ValidRune(v.value) then None
          else Some(Unquoted(v.value, true, 2 + n))
      else if Octal(c).Some? then
        if |s| < 4 || Octal(s[2]).None? || Octal(s[3]).None? then None
        else
          var v := Octal(c).value * 64 + Octal(s[2]).value * 8 + Octal(s[3]).value;
          if v > 255 then None else Some(Unquoted(v, false, 4))
      else if c == BACKSLASH || c == QUOTE then Some(Unquoted(c, false, 2))
      else None
  }

  /** Escapes that are read though never written: three octal digits up to 377, and hex digits in upper case. */
  lemma EscapesExactly(a: int, b: int, c: int, rest: Bytes)
    requires 0 <= a < 8 && 0 <= b < 8 && 0 <= c < 8
    ensures UnquoteChar([BACKSLASH, 48 + a, 48 + b, 48 + c] + rest) ==
            if a < 4 then Some(Unquoted(64 * a + 8 * b + c, false, 4)) else None
    ensures a < 6 && b < 6 ==> UnquoteChar([BACKSLASH, 120, 65 + a, 65 + b] + rest) ==
                               Some(Unquoted(16 * (10 + a) + (10 + b), false, 4))
  {
    var s, t: Bytes := [BACKSLASH, 48 + a, 48 + b, 48 + c] + rest, [BACKSLASH, 120, 65 + a, 65 + b] + rest;
    assert s[1] == 48 + a && s[2] == 48 + b && s[3] == 48 + c && HexCount(s[1]) == 0 && ShortUnescape(s[1]) == None;
    assert t[2..4] == [65 + a, 65 + b] && t[1] == 120 && t[0] == BACKSLASH;
    if a < 6 && b < 6 {
      var two: Bytes := [65 + a, 65 + b];
      assert two[..1] == [65 + a] && [65 + a][..0] == [];
      assert ParseHex([]) == Some(0) && ParseHex([65 + a]) == Some(10 + a);
      assert ParseHex(two) == Some(16 * (10 + a) + (10 + b));
    }
  }

  /** The bytes a character stands for. */
  function Emit(u: Unquoted): Bytes {
    if 0 <= u.value < 0x80 || !u.multibyte then [if 0 <= u.value < 256 then u.value else 0] else EncodeRune(u.value)
  }

  /** The loop of `unquote`: the text up to the closing quote and what is left behind it. */
  function UnquoteLoop(s: Bytes): Option<(Bytes, Bytes)>
    decreases |s|
  {
    if s == [] then None
    else if s[0] == QUOTE then Some(([], s[1..]))
    else
      var u := UnquoteChar(s);
      if s[0] == NEWLINE || u.None? then None
      else
        var rest := UnquoteLoop(s[u.value.width..]);
        if rest.None? then None else Some((Emit(u.value) + rest.value.0, rest.value.1))
  }

  function IndexOf(s: Bytes, b: Byte): (i: int)
    ensures -1 <= i < |s|
    ensures i >= 0 ==> s[i] == b && b !in s[..i]
    ensures i < 0 ==> b !in s
  {
    if s == [] then -1
    else if s[0] == b then 0
    else
      var i := IndexOf(s[1..], b);
      assert s == [s[0]] + s[1..];
      assert i >= 0 ==> s[..i + 1] == [s[0]] + s[1..][..i];
      if i < 0 then -1 else i + 1
  }

  /** `strconv.Unquote` of text that starts with a double quote. */
  function Unquote(raw: Bytes): Option<Bytes> {
    if |raw| < 2 || raw[0] != QUOTE then None
    else
      var end := IndexOf(raw[1..], QUOTE);
      if end < 0 then None
      else
        var head := raw[..end + 2];
        if BACKSLASH !in head && NEWLINE !in head && ValidString(raw[1..end + 1]) then
          if head == raw then Some(raw[1..end + 1]) else None
        else
          var r := UnquoteLoop(raw[1..]);
          if r.Some? && r.value.1 == [] then Some(r.value.0) else None
  }

  // ---------- the body of a quoted string ----------

  /** Plain bytes and backslash pairs: the only quotes are behind a backslash. */
  ghost predicate Units(s: Bytes)
    decreases |s|
  {
    if s == [] then true
    else if s[0] == BACKSLASH then |s| >= 2 && Units(s[2..])
    else s[0] != QUOTE && Units(s[1..])
  }

  lemma {:induction false} UnitsAppend(a: Bytes, b: Bytes)
    requires Units(a) && Units(b)
    ensures Units(a + b)
    decreases |a|
  {
    if a == [] {
      assert a + b == b;
    } else {
      var n := if a[0] == BACKSLASH then 2 else 1;
      assert (a + b)[n..] == a[n..] + b;
      UnitsAppend(a[n..], b);
    }
  }

  lemma {:induction false} PlainUnits(s: Bytes)
    requires QUOTE !in s && BACKSLASH !in s
    ensures Units(s)
    decreases |s|
  {
    if s != [] {
      PlainUnits(s[1..]);
    }
  }

  lemma {:induction false} UnitsNoQuote(s: Bytes)
    requires Units(s) && BACKSLASH !in s
    ensures QUOTE !in s
    decreases |s|
  {
    if s != [] {
      UnitsNoQuote(s[1..]);
    }
  }

  /** If the first quote of the body comes before any backslash, there is none. */
  lemma {:induction false} UnitsFirstQuote(s: Bytes, i: nat)
    requires Units(s) && i < |s| && s[i] == QUOTE
    ensures BACKSLASH in s[..i]
    decreases |s|
  {
    if s[0] == BACKSLASH {
      assert s[..i][0] == BACKSLASH;
    } else {
      UnitsFirstQuote(s[1..], i - 1);
      assert s[..i] == [s[0]] + s[1..][..i - 1];
    }
  }

  /** What must be known of a body for `Unquote` to give `s` back on either of its two paths. */
  lemma UnquoteBody(body: Bytes, s: Bytes)
    requires Units(body) && UnquoteLoop(body + [QUOTE]) == Some((s, []))
    requires BACKSLASH !in body ==> body == s && ValidString(body)
    ensures Unquote([QUOTE] + body + [QUOTE]) == Some(s)
  {
    hide UnquoteLoop, ValidString, IndexOf, Units;
    var raw := [QUOTE] + body + [QUOTE];
    var tail := body + [QUOTE];
    assert raw[1..] == tail;
    var end := IndexOf(tail, QUOTE);
    assert tail[|body|] == QUOTE;
    if BACKSLASH !in body {
      UnitsNoQuote(body);
      assert tail[end] == QUOTE && end == |body|;
      assert raw[1..end + 1] == body && raw[..end + 2] == raw;
    } else if end < |body| {
      UnitsFirstQuote(body, end);
      var k :| 0 <= k < end && body[k] == BACKSLASH;
      assert raw[..end + 2][k + 1] == BACKSLASH;
    } else {
      var k :| 0 <= k < |body| && body[k] == BACKSLASH;
      assert raw[..end + 2][k + 1] == BACKSLASH;
    }
  }

  // ---------- round trip ----------

  /** Unquoting the escape of the front of `s` yields exactly the bytes it stands for. */
  lemma EscapeFrontUnquotes(s: Bytes, printable: int -> bool, rest: Bytes)
    requires s != []
    ensures var e := EscapeFront(s, printable);
            && e != [] && e[0] != QUOTE && e[0] != NEWLINE && Units(e)
            && UnquoteChar(e + rest).Some? && UnquoteChar(e + rest).value.width == |e|
            && Emit(UnquoteChar(e + rest).value) == s[..DecodeRune(s).1]
            && (BACKSLASH !in e ==> e == s[..DecodeRune(s).1] && !Broken(s))
  {
    if Broken(s) {
      HexEscape(s[0], 120, 2, rest);
    } else {
      EncodeDecode(s);
      EscapeRuneUnquotes(DecodeRune(s).0, printable, rest);
    }
  }

  /** `UnquoteChar` on a hexadecimal escape. */
  lemma UnquoteHex(t: Bytes, c: Byte, n: nat, v: int)
    requires |t| >= 2 + n && t[0] == BACKSLASH && t[1] == c && HexCount(c) == n > 0
    requires ParseHex(t[2..2 + n]) == Some(v) && (c != 120 ==> ValidRune(v))
    ensures UnquoteChar(t) == Some(Unquoted(v, c != 120, 2 + n))
  {
    hide ParseHex, ValidRune, DecodeRune;
  }

  lemma HexEscape(v: nat, c: Byte, n: nat, rest: Bytes)
    requires HexCount(c) == n > 0 && v < Pow16(n) && (c != 120 ==> ValidRune(v))
    ensures var e := [BACKSLASH, c] + Hex(v, n);
            && Units(e) && BACKSLASH in e
            && UnquoteChar(e + rest) == Some(Unquoted(v, c != 120, |e|))
  {
    hide UnquoteChar, ParseHex, Hex, Pow16;
    var e := [BACKSLASH, c] + Hex(v, n);
    HexRoundTrip(v, n);
    HexPlain(v, n);
    PlainUnits(Hex(v, n));
    assert e[2..] == Hex(v, n);
    assert e[0] == BACKSLASH;
    var t := e + rest;
    assert t[2..2 + n] == Hex(v, n);
    UnquoteHex(t, c, n, v);
  }

  lemma Pow16s()
    ensures Pow16(2) == 0x100 && Pow16(4) == 0x10000 && Pow16(8) == 0x1_0000_0000
  {
    assert Pow16(4) == 0x10000 by { assert Pow16(2) == 0x100; }
    assert Pow16(6) == 0x100_0000;
  }

  lemma EscapeRuneUnquotes(r: int, printable: int -> bool, rest: Bytes)
    requires ValidRune(r)
    ensures var e := EscapeRune(r, printable);
            && e != [] && e[0] != QUOTE && e[0] != NEWLINE && Units(e)
            && UnquoteChar(e + rest).Some? && UnquoteChar(e + rest).value.width == |e|
            && Emit(UnquoteChar(e + rest).value) == EncodeRune(r)
            && (BACKSLASH !in e ==> e == EncodeRune(r))
  {
    Pow16s();
    var e := EscapeRune(r, printable);
    if r == QUOTE || r == BACKSLASH {
      PairEscape(r, rest);
    } else if IsPrint(r, printable) {
      RawRune(r, rest);
    } else if ShortEscape(r).Some? {
      PairEscape(ShortEscape(r).value, rest);
    } else if r < 0x20 || r == 0x7F {
      HexEscape(r, 120, 2, rest);
    } else if r < 0x10000 {
      HexEscape(r, 117, 4, rest);
    } else {
      HexEscape(r, 85, 8, rest);
    }
  }

  lemma PairEscape(c: Byte, rest: Bytes)
    ensures Units([BACKSLASH, c]) && BACKSLASH in [BACKSLASH, c]
    ensures ShortUnescape(c).Some? ==>
              UnquoteChar([BACKSLASH, c] + rest) == Some(Unquoted(ShortUnescape(c).value, false, 2))
    ensures c == BACKSLASH || c == QUOTE ==> UnquoteChar([BACKSLASH, c] + rest) == Some(Unquoted(c, false, 2))
  {
    assert [BACKSLASH, c][2..] == [];
    assert [BACKSLASH, c][0] == BACKSLASH;
  }

  lemma RawRune(r: int, rest: Bytes)
    requires ValidRune(r) && r >= 0x20 && r != QUOTE && r != BACKSLASH
    ensures var e := EncodeRune(r);
            && e[0] != QUOTE && e[0] != NEWLINE && Units(e)
            && UnquoteChar(e + rest).Some? && UnquoteChar(e + rest).value.width == |e|
            && Emit(UnquoteChar(e + rest).value) == e
  {
    var e := EncodeRune(r);
    DecodeEncode(r, rest);
    if r < 0x80 {
      assert e == [r];
    } else {
      assert forall k :: 0 <= k < |e| ==> e[k] >= 0x80;
    }
    PlainUnits(e);
  }

  lemma {:induction false} QuoteBodyUnquotes(s: Bytes, printable: int -> bool, rest: Bytes)
    ensures Units(QuoteBody(s, printable))
    ensures UnquoteLoop(QuoteBody(s, printable) + ([QUOTE] + rest)) == Some((s, rest))
    ensures BACKSLASH !in QuoteBody(s, printable) ==> QuoteBody(s, printable) == s && ValidString(s)
    decreases |s|
  {
    hide EscapeFront, UnquoteChar, Emit, DecodeRune, EncodeRune;
    if s == [] {
      assert QuoteBody(s, printable) + ([QUOTE] + rest) == [QUOTE] + rest;
      assert ([QUOTE] + rest)[1..] == rest;
    } else {
      var n := DecodeRune(s).1;
      var e, body := EscapeFront(s, printable), QuoteBody(s[n..], printable);
      var tail := body + ([QUOTE] + rest);
      QuoteBodyUnquotes(s[n..], printable, rest);
      EscapeFrontUnquotes(s, printable, tail);
      UnitsAppend(e, body);
      assert e + body + ([QUOTE] + rest) == e + tail;
      assert (e + tail)[0] == e[0] && (e + tail)[|e|..] == tail;
      assert s == s[..n] + s[n..];
    }
  }

  /** Unquoting what `AppendQuote` writes gives back every byte string, valid UTF-8 or not, whatever runes are
      printable. */
  lemma QuoteRoundTrip(s: Bytes, printable: int -> bool)
    ensures Unquote([QUOTE] + QuoteBody(s, printable) + [QUOTE]) == Some(s)
  {
    QuoteBodyUnquotes(s, printable, []);
    assert [QUOTE] + [] == [QUOTE];
    UnquoteBody(QuoteBody(s, printable), s);
  }

  /** Text that needs no escapes is its own quoted body. */
  predicate Plain(s: Bytes) {
    forall k :: 0 <= k < |s| ==> 0x20 <= s[k] < 0x80 && s[k] != QUOTE && s[k] != BACKSLASH
  }

  lemma {:induction false} PlainUnquotes(s: Bytes)
    requires Plain(s)
    ensures UnquoteLoop(s + [QUOTE]) == Some((s, [])) && ValidString(s)
    decreases |s|
  {
    hide DecodeRune, EncodeRune;
    if s == [] {
      assert s + [QUOTE] == [QUOTE];
    } else {
      var tail := s[1..] + [QUOTE];
      PlainUnquotes(s[1..]);
      assert (s + [QUOTE])[1..] == tail;
      EncodeAscii(s);
      EncodeAscii(s + [QUOTE]);
      assert s == [s[0]] + s[1..];
    }
  }

  lemma PlainRoundTrip(s: Bytes)
    requires Plain(s)
    ensures Unquote([QUOTE] + s + [QUOTE]) == Some(s) && Units(s)
  {
    assert forall b :: b in s ==> b != QUOTE && b != BACKSLASH;
    PlainUnits(s);
    PlainUnquotes(s);
    UnquoteBody(s, s);
  }
}
