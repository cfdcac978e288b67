/** UTF-8 as Go's unicode/utf8 decodes and encodes it: invalid bytes decode one at a time to the error rune. */
module Utf8 {
  type Byte = b: int | 0 <= b < 256

  type Bytes = seq<Byte>

  const RUNE_ERROR := 0xFFFD

  predicate ValidRune(r: int) {
    0 <= r < 0xD800 || 0xE000 <= r < 0x110000
  }

  function EncodeRune(r: int): (s: Bytes)
    ensures 1 <= |s| <= 4
  {
    if !ValidRune(r) then [0xEF, 0xBF, 0xBD]
    else if r < 0x80 then [r]
    else if r < 0x800 then [0xC0 + r / 0x40, 0x80 + r % 0x40]
    else if r < 0x10000 then [0xE0 + r / 0x1000, 0x80 + r / 0x40 % 0x40, 0x80 + r % 0x40]
    else [0xF0 + r / 0x40000, 0x80 + r / 0x1000 % 0x40, 0x80 + r / 0x40 % 0x40, 0x80 + r % 0x40]
  }

  predicate Continuation(s: Bytes, k: nat) {
    k < |s| && 0x80 <= s[k] < 0xC0
  }

  function Join2(a: int, b: int): int {
    a * 0x40 + b
  }

  function Join3(a: int, b: int, c: int): int {
    a * 0x1000 + b * 0x40 + c
  }

  function Join4(a: int, b: int, c: int, d: int): int {
    a * 0x40000 + b * 0x1000 + c * 0x40 + d
  }

  /** The rune at the front of `s` and how many bytes it takes. */
  function DecodeRune(s: Bytes): (d: (int, nat))
    requires s != []
    ensures 1 <= d.1 <= 4 && d.1 <= |s|
  {
    var b: int := s[0];
    if b < 0x80 then (b, 1)
    else if 0xC2 <= b < 0xE0 && Continuation(s, 1) then (Join2(b - 0xC0, s[1] - 0x80), 2)
    else if 0xE0 <= b < 0xF0 && Continuation(s, 1) && Continuation(s, 2)
            && (b == 0xE0 ==> s[1] >= 0xA0) && (b == 0xED ==> s[1] < 0xA0) then
      (Join3(b - 0xE0, s[1] - 0x80, s[2] - 0x80), 3)
    else if 0xF0 <= b < 0xF5 && Continuation(s, 1) && Continuation(s, 2) && Continuation(s, 3)
            && (b == 0xF0 ==> s[1] >= 0x90) && (b == 0xF4 ==> s[1] < 0x90) then
      (Join4(b - 0xF0, s[1] - 0x80, s[2] - 0x80, s[3] - 0x80), 4)
    else (RUNE_ERROR, 1)
  }

  /** The bytes at the front of `s` are not the encoding of a rune. */
  predicate Broken(s: Bytes)
    requires s != []
  {
    DecodeRune(s) == (RUNE_ERROR, 1)
  }

  lemma Split2(a: int, b: int)
    requires 0 <= b < 0x40
    ensures Join2(a, b) / 0x40 == a && Join2(a, b) % 0x40 == b
  {
  }

  lemma DivideTwice(r: int)
    ensures r / 0x1000 == r / 0x40 / 0x40
  {
  }

  lemma Split3(a: int, b: int, c: int)
    requires 0 <= b < 0x40 && 0 <= c < 0x40
    ensures var r := Join3(a, b, c); r / 0x1000 == a && r / 0x40 % 0x40 == b && r % 0x40 == c
  {
    assert Join3(a, b, c) == Join2(Join2(a, b), c);
    Split2(a, b);
    Split2(Join2(a, b), c);
    DivideTwice(Join3(a, b, c));
  }

  lemma Split4(a: int, b: int, c: int, d: int)
    requires 0 <= b < 0x40 && 0 <= c < 0x40 && 0 <= d < 0x40
    ensures var r := Join4(a, b, c, d);
            r / 0x40000 == a && r / 0x1000 % 0x40 == b && r / 0x40 % 0x40 == c && r % 0x40 == d
  {
    Split3(Join2(a, b), c, d);
    assert Join4(a, b, c, d) == Join3(Join2(a, b), c, d);
  }

  lemma Rejoin(r: int)
    ensures Join2(r / 0x40, r % 0x40) == r
    ensures Join3(r / 0x1000, r / 0x40 % 0x40, r % 0x40) == r
    ensures Join4(r / 0x40000, r / 0x1000 % 0x40, r / 0x40 % 0x40, r % 0x40) == r
  {
    assert r / 0x40 / 0x40 == r / 0x1000;
    assert r / 0x1000 / 0x40 == r / 0x40000;
  }

  /** Decoding undoes encoding, whatever follows. */
  lemma DecodeEncode(r: int, rest: Bytes)
    requires ValidRune(r)
    ensures DecodeRune(EncodeRune(r) + rest) == (r, |EncodeRune(r)|)
  {
    var e := EncodeRune(r);
    var s := e + rest;
    assert forall k :: 0 <= k < |e| ==> s[k] == e[k];
    Rejoin(r);
  }

  lemma Encode2(a: int, b: int)
    requires 2 <= a < 0x20 && 0 <= b < 0x40
    ensures ValidRune(Join2(a, b)) && EncodeRune(Join2(a, b)) == [0xC0 + a, 0x80 + b]
  {
  }

  lemma Encode3(a: int, b: int, c: int)
    requires 0 <= a < 0x10 && 0 <= b < 0x40 && 0 <= c < 0x40 && (a == 0 ==> b >= 0x20) && (a == 0xD ==> b < 0x20)
    ensures ValidRune(Join3(a, b, c)) && EncodeRune(Join3(a, b, c)) == [0xE0 + a, 0x80 + b, 0x80 + c]
  {
    Split3(a, b, c);
  }

  lemma Encode4(a: int, b: int, c: int, d: int)
    requires 0 <= a < 5 && 0 <= b < 0x40 && 0 <= c < 0x40 && 0 <= d < 0x40 && (a == 0 ==> b >= 0x10)
             && (a == 4 ==> b < 0x10)
    ensures ValidRune(Join4(a, b, c, d)) && EncodeRune(Join4(a, b, c, d)) == [0xF0 + a, 0x80 + b, 0x80 + c, 0x80 + d]
  {
    Split4(a, b, c, d);
  }

  /** Encoding undoes decoding, so a string is rebuilt from its runes unless it is broken. */
  lemma EncodeDecode(s: Bytes)
    requires s != [] && !Broken(s)
    ensures ValidRune(DecodeRune(s).0) && EncodeRune(DecodeRune(s).0) == s[..DecodeRune(s).1]
  {
    hide EncodeRune, Join2, Join3, Join4;
    var n := DecodeRune(s).1;
    if n == 1 {
      EncodeAscii(s);
    } else if n == 2 {
      Encode2(s[0] - 0xC0, s[1] - 0x80);
      assert s[..2] == [s[0], s[1]];
    } else if n == 3 {
      Encode3(s[0] - 0xE0, s[1] - 0x80, s[2] - 0x80);
      assert s[..3] == [s[0], s[1], s[2]];
    } else {
      Encode4(s[0] - 0xF0, s[1] - 0x80, s[2] - 0x80, s[3] - 0x80);
      assert s[..4] == [s[0], s[1], s[2], s[3]];
    }
  }

  lemma EncodeAscii(s: Bytes)
    requires s != [] && s[0] < 0x80
    ensures DecodeRune(s) == (s[0] as int, 1) && ValidRune(s[0]) && EncodeRune(s[0]) == s[..1]
  {
  }

  /** `utf8.ValidString`. */
  predicate ValidString(s: Bytes)
    decreases |s|
  {
    s == [] || (!Broken(s) && ValidString(s[DecodeRune(s).1..]))
  }
}
