/** The text of BCL map blocks: printing flattens a nested map to dotted entries, parsing rebuilds it (bcl/bcl.go). */
module BclMap {
  import opened Wrappers
  import opened Utf8
  import opened GoQuote
  import opened Scan = BclScanner
  import opened BclValue
  import opened FactTree
  import opened Heap = FactHeap
  import opened BclFacts

  const ASSIGN: Bytes := [32, 61, 32]

  // ---------- dotted keys ----------

  /** `strings.Split(s, ".")`. */
  function Split(s: Bytes): (parts: seq<Bytes>)
    ensures parts != []
    decreases |s|
  {
    var i := IndexOf(s, DOT);
    if i < 0 then [s] else [s[..i]] + Split(s[i + 1..])
  }

  /** The prefix grown by one key. */
  function Extend(prefix: Bytes, key: Bytes): Bytes {
    if prefix == [] then key else prefix + [DOT] + key
  }

  function Dots(path: seq<Bytes>): Bytes {
    if path == [] then [] else Extend(Dots(path[..|path| - 1]), path[|path| - 1])
  }

  predicate DotFree(path: seq<Bytes>) {
    forall k :: 0 <= k < |path| ==> DOT !in path[k]
  }

  lemma FirstDot(a: Bytes, b: Bytes)
    requires DOT !in a
    ensures IndexOf(a + [DOT] + b, DOT) == |a|
  {
    hide IndexOf;
    var s := a + [DOT] + b;
    var i := IndexOf(s, DOT);
    assert s[|a|] == DOT;
    assert forall k :: 0 <= k < |a| ==> s[k] == a[k] && a[k] in a;
    assert forall k :: 0 <= k < i ==> s[k] == s[..i][k] && s[..i][k] in s[..i];
  }

  lemma {:induction false} SplitLast(a: Bytes, b: Bytes)
    requires DOT !in b
    ensures Split(a + [DOT] + b) == Split(a) + [b]
    decreases |a|
  {
    hide IndexOf;
    var s, i := a + [DOT] + b, IndexOf(a, DOT);
    if i < 0 {
      FirstDot(a, b);
      assert s[..|a|] == a && s[|a| + 1..] == b;
    } else {
      assert a == a[..i] + [DOT] + a[i + 1..];
      var rest := a[i + 1..] + [DOT] + b;
      assert s == a[..i] + [DOT] + rest;
      FirstDot(a[..i], rest);
      SplitLast(a[i + 1..], b);
      assert s[..i] == a[..i] && s[i + 1..] == rest;
    }
  }

  /** Splitting a dotted path gives its keys back. */
  lemma {:induction false} SplitDots(path: seq<Bytes>)
    requires path != [] && [] !in path && DotFree(path)
    ensures Dots(path) != [] && Split(Dots(path)) == path && (DOT in Dots(path) <==> |path| > 1)
  {
    assert Split(path[0]) == [path[0]];
    hide IndexOf, Split;
    var front, last := path[..|path| - 1], path[|path| - 1];
    assert last in path && path == front + [last];
    if front != [] {
      assert forall k :: 0 <= k < |front| ==> front[k] == path[k];
      SplitDots(front);
      SplitLast(Dots(front), last);
      assert Dots(path) == Dots(front) + [DOT] + last && Dots(path)[|Dots(front)|] == DOT;
    }
  }

  // ---------- parsing ----------

  predicate StringLike(k: Kind) {
    k == String || k == Ident || k == Number
  }

  /** The entries up to and past the closing brace. */
  function EntriesAt(src: Bytes, t: Token, f: Format): (r: Option<Parsed<seq<(Bytes, Value)>>>)
    requires Standing(src, t)
    ensures r.Some? ==> Standing(src, r.value.tok)
    decreases Left(src, t)
  {
    var u := SkipNewlines(src, t);
    if u.kind == RBrace then Some(Parsed([], After(src, u)))
    else if !StringLike(u.kind) then None
    else
      var e := SkipNewlines(src, After(src, u));
      if e.kind != Equal then None
      else
        var v := ValueAt(src, After(src, e), f);
        if v.None? then None
        else
          Behind((Text(src, u), v.value.value), EntriesAt(src, v.value.tok, f))
  }

  function Behind<T>(first: T, rest: Option<Parsed<seq<T>>>): Option<Parsed<seq<T>>> {
    if rest.None? then None else Some(Parsed([first] + rest.value.value, rest.value.tok))
  }

  /** One entry's store: a key with a dot is a path. */
  function StoreAt<V>(t: Tree<V>, key: Bytes, v: V): (r: (Tree<V>, bool))
    requires t.MapT?
    ensures r.0.MapT?
  {
    if DOT in key then Assign(t, Split(key), v) else (MapT(t.entries[key := LeafT(v)]), true)
  }

  function Fill<V>(t: Tree<V>, es: seq<(Bytes, V)>): (r: (Tree<V>, bool))
    requires t.MapT?
    ensures r.0.MapT?
    decreases |es|
  {
    if es == [] then (t, true)
    else
      var (u, ok) := StoreAt(t, es[0].0, es[0].1);
      if ok then Fill(u, es[1..]) else (u, false)
  }

  /** The tree and what follows it. */
  function Filled(es: Option<Parsed<seq<(Bytes, Value)>>>, t: Tree<Value>): Option<Parsed<Tree<Value>>>
    requires t.MapT?
  {
    if es.None? || !Fill(t, es.value.value).1 then None else Some(Parsed(Fill(t, es.value.value).0, es.value.tok))
  }

  /** `parseMapBlock`. */
  function MapBlockAt(src: Bytes, t: Token, f: Format): Option<Parsed<Tree<Value>>>
    requires Standing(src, t)
  {
    var u := SkipNewlines(src, t);
    if u.kind != LBrace then None else Filled(EntriesAt(src, After(src, u), f), MapT(map[]))
  }

  // ---------- printing ----------

  function EntryText(e: Entry<Value>, f: Format): Bytes {
    Dots(e.path) + ASSIGN + Print(e.value, f)
  }

  /** Entries, the first behind `first`, the others behind `lead`, each followed by `trail`. */
  function Layout(es: seq<Entry<Value>>, first: Bytes, lead: Bytes, trail: Bytes, f: Format): Bytes
    decreases |es|
  {
    if es == [] then [] else first + EntryText(es[0], f) + trail + Layout(es[1..], lead, lead, trail, f)
  }

  lemma {:induction false} LayoutAppend(a: seq<Entry<Value>>, b: seq<Entry<Value>>, first: Bytes, lead: Bytes,
                                        trail: Bytes, f: Format)
    ensures Layout(a + b, first, lead, trail, f)
            == Layout(a, first, lead, trail, f) + Layout(b, if a == [] then first else lead, lead, trail, f)
    decreases |a|
  {
    if a == [] {
      assert a + b == b;
    } else {
      assert (a + b)[1..] == a[1..] + b && (a + b)[0] == a[0];
      LayoutAppend(a[1..], b, lead, lead, trail, f);
    }
  }

  predicate Spaces(s: Bytes) {
    forall k :: 0 <= k < |s| ==> s[k] == 32
  }

  /** Blanks and newlines do not matter between entries: either something separates them or something ends them. */
  predicate Separating(first: Bytes, lead: Bytes, trail: Bytes) {
    && Spaces(first) && Spaces(lead)
    && (trail == [NEWLINE] || (trail == [] && lead != []))
  }

  // ---------- the round trip ----------

  predicate KeyText(s: Bytes) {
    s != [] && (forall b :: b in s ==> IdentByte(b)) && !CommentAt(s, 0)
  }

  /** The printed entry is read back as one key and its value. */
  predicate Scannable(e: Entry<Value>, f: Format) {
    e.path != [] && [] !in e.path && KeyText(Dots(e.path)) && Dotted(e.value, f)
  }

  /** And the key is split where it was joined. */
  predicate Writable(e: Entry<Value>, f: Format) {
    Scannable(e, f) && DotFree(e.path)
  }

  lemma {:induction false} SkipSpaces(src: Bytes, start: nat, end: nat)
    requires start <= end <= |src| && forall k :: start <= k < end ==> src[k] == 32
    ensures NextToken(src, start) == NextToken(src, end)
    decreases end - start
  {
    if start < end {
      SkipSpaces(src, start + 1, end);
    }
  }

  lemma SpacesSkipped(src: Bytes, start: nat, end: nat, spaces: Bytes)
    requires Holds(src, start, end, spaces) && Spaces(spaces)
    ensures NextToken(src, start) == NextToken(src, end) && (start < end ==> src[start] == 32)
  {
    HoldsBytes(src, start, end, spaces);
    assert forall k :: start <= k < end ==> src[k] == spaces[k - start];
    SkipSpaces(src, start, end);
  }

  lemma KeyToken(src: Bytes, start: nat, end: nat, key: Bytes)
    requires Holds(src, start, end, key) && KeyText(key) && end < |src| && !IdentByte(src[end])
    ensures NextToken(src, start) == Token(WordKind(src, start, end), start, end)
  {
    HoldsBytes(src, start, end, key);
    assert forall k :: start <= k < end ==> src[k] == key[k - start];
    WordToken(src, start, end);
  }

  /** One printed entry scans as a key, an equals sign and its value. */
  lemma EntryParses(src: Bytes, start: nat, end: nat, e: Entry<Value>, f: Format)
    requires Holds(src, start, end, EntryText(e, f)) && Delimited(src, end) && Scannable(e, f) && Sound(f)
    ensures var k := NextToken(src, start);
            && StringLike(k.kind) && k.kind != String && Raw(src, k) == Dots(e.path)
            && var q := After(src, k);
            && q.kind == Equal && ValueAt(src, After(src, q), f) == Some(Parsed(e.value, NextToken(src, end)))
  {
    hide Print, Sound, Dotted, KeyText, ValueAt, NextToken, Dots;
    var mid := start + |Dots(e.path)|;
    HoldsSplit(src, start, end, Dots(e.path) + ASSIGN, Print(e.value, f));
    HoldsSplit(src, start, mid + 3, Dots(e.path), ASSIGN);
    HoldsBytes(src, mid, mid + 3, ASSIGN);
    KeyToken(src, start, mid, Dots(e.path));
    assert NextToken(src, mid) == Token(Equal, mid + 1, mid + 2) by { EqualToken(src, mid); }
    SkipSpaces(src, mid + 2, mid + 3);
    ValueParses(src, mid + 3, end, e.value, f);
    RestoredUnchanged(e.value, f);
  }

  lemma EqualToken(src: Bytes, pos: nat)
    requires pos + 2 < |src| && src[pos] == 32 && src[pos + 1] == 61
    ensures NextToken(src, pos) == Token(Equal, pos + 1, pos + 2)
  {
    assert SkipBlanks(src, pos + 1) == pos + 1;
  }

  function Plainly(es: seq<Entry<Value>>): seq<(Bytes, Value)> {
    seq(|es|, k requires 0 <= k < |es| => (Dots(es[k].path), es[k].value))
  }

  /** One turn of the loop over the entries. */
  lemma EntriesStep(src: Bytes, t: Token, f: Format)
    requires Standing(src, t)
    ensures var u := SkipNewlines(src, t);
            if u.kind == RBrace then EntriesAt(src, t, f) == Some(Parsed([], After(src, u)))
            else if !StringLike(u.kind) then EntriesAt(src, t, f) == None
            else
              var e := SkipNewlines(src, After(src, u));
              if e.kind != Equal then EntriesAt(src, t, f) == None
              else
                var v := ValueAt(src, After(src, e), f);
                if v.None? then EntriesAt(src, t, f) == None
                else
                  EntriesAt(src, t, f) == Behind((Text(src, u), v.value.value), EntriesAt(src, v.value.tok, f))
  {
    hide ValueAt, NextToken, SkipNewlines;
  }

  lemma EntriesSkip(src: Bytes, t: Token, f: Format)
    requires Standing(src, t) && t.kind == Newline
    ensures EntriesAt(src, t, f) == EntriesAt(src, After(src, t), f)
  {
    hide ValueAt, NextToken;
    assert SkipNewlines(src, t) == SkipNewlines(src, After(src, t));
  }

  lemma NewlineToken(src: Bytes, pos: nat)
    requires pos < |src| && src[pos] == NEWLINE
    ensures NextToken(src, pos) == Token(Newline, pos, pos + 1) && Delimited(src, pos)
  {
  }

  /** Behind an entry, at `mid`: its trail does not change what is read next, and delimits the entry. */
  lemma TrailSkipped(src: Bytes, mid: nat, next: nat, trail: Bytes, f: Format)
    requires Holds(src, mid, next, trail) && (trail == [] || trail == [NEWLINE])
    ensures EntriesAt(src, NextToken(src, mid), f) == EntriesAt(src, NextToken(src, next), f)
    ensures trail != [] ==> Delimited(src, mid)
  {
    hide EntriesAt, NextToken;
    if trail != [] {
      HoldsBytes(src, mid, next, trail);
      NewlineToken(src, mid);
      EntriesSkip(src, NextToken(src, mid), f);
    }
  }

  lemma {:induction false} LayoutParses(src: Bytes, start: nat, end: nat, es: seq<Entry<Value>>, first: Bytes,
                                        lead: Bytes, trail: Bytes, f: Format)
    requires Holds(src, start, end, Layout(es, first, lead, trail, f))
    requires Sound(f) && Separating(first, lead, trail) && (forall i :: 0 <= i < |es| ==> Scannable(es[i], f))
    requires Delimited(src, end) && NextToken(src, end).kind == RBrace
    ensures EntriesAt(src, NextToken(src, start), f) == Some(Parsed(Plainly(es), After(src, NextToken(src, end))))
    decreases |es|
  {
    hide EntriesAt, NextToken, Sound, Scannable, SkipNewlines, Layout, Separating, Delimited;
    if es == [] {
      NoEntries(first, lead, trail, f);
      EntriesStep(src, NextToken(src, start), f);
    } else {
      var next := LayoutStep(src, start, end, es, first, lead, trail, f);
      SeparatingLater(first, lead, trail);
      LayoutParses(src, next, end, es[1..], lead, lead, trail, f);
      assert Plainly(es) == [(Dots(es[0].path), es[0].value)] + Plainly(es[1..]);
    }
  }

  lemma NoEntries(first: Bytes, lead: Bytes, trail: Bytes, f: Format)
    ensures Layout([], first, lead, trail, f) == []
  {
  }

  lemma SeparatingLater(first: Bytes, lead: Bytes, trail: Bytes)
    requires Separating(first, lead, trail)
    ensures Separating(lead, lead, trail) && (trail == [] || trail == [NEWLINE])
  {
  }

  /** The first entry of a layout, and where the rest begins. */
  lemma LayoutStep(src: Bytes, start: nat, end: nat, es: seq<Entry<Value>>, first: Bytes, lead: Bytes, trail: Bytes,
                   f: Format)
    returns (next: nat)
    requires es != [] && Holds(src, start, end, Layout(es, first, lead, trail, f))
    requires Sound(f) && Separating(first, lead, trail) && Scannable(es[0], f) && Delimited(src, end)
    ensures Holds(src, next, end, Layout(es[1..], lead, lead, trail, f))
    ensures EntriesAt(src, NextToken(src, start), f)
            == Behind((Dots(es[0].path), es[0].value), EntriesAt(src, NextToken(src, next), f))
  {
    hide EntriesAt, ValueAt, NextToken, EntryText, Sound, Scannable, IdentByte, SkipNewlines;
    var text, rest := EntryText(es[0], f), Layout(es[1..], lead, lead, trail, f);
    var a := start + |first|;
    var mid := a + |text|;
    next := mid + |trail|;
    HoldsSplit(src, start, end, first + text + trail, rest);
    HoldsSplit(src, start, next, first + text, trail);
    HoldsSplit(src, start, mid, first, text);
    SpacesSkipped(src, start, a, first);
    TrailSkipped(src, mid, next, trail, f);
    if trail == [] && |es| > 1 {
      LeadDelimits(src, next, end, es[1..], lead, f);
    }
    EntryParses(src, a, mid, es[0], f);
    EntriesStep(src, NextToken(src, start), f);
  }

  lemma LeadDelimits(src: Bytes, pos: nat, end: nat, es: seq<Entry<Value>>, lead: Bytes, f: Format)
    requires es != [] && lead != [] && Spaces(lead)
    requires Holds(src, pos, end, Layout(es, lead, lead, [], f))
    ensures Delimited(src, pos)
  {
    HoldsBytes(src, pos, end, Layout(es, lead, lead, [], f));
    assert Layout(es, lead, lead, [], f)[0] == lead[0] == 32;
    assert src[pos + 0] == 32;
  }

  /** Storing parsed entries is replaying their paths. */
  lemma {:induction false} FillReplays(t: Tree<Value>, es: seq<Entry<Value>>, f: Format)
    requires t.MapT? && forall i :: 0 <= i < |es| ==> Writable(es[i], f)
    ensures Fill(t, Plainly(es)) == Replay(t, es)
    decreases |es|
  {
    if es != [] {
      var e := es[0];
      SplitDots(e.path);
      if |e.path| == 1 {
        assert e.path[0] in e.path && e.path[..0] == [];
      }
      assert StoreAt(t, Dots(e.path), e.value) == Assign(t, e.path, e.value);
      assert Plainly(es)[1..] == Plainly(es[1..]);
      FillReplays(Assign(t, e.path, e.value).0, es[1..], f);
    }
  }

  /** The text of a block of entries. */
  function BlockText(es: seq<Entry<Value>>, first: Bytes, lead: Bytes, trail: Bytes, closing: Bytes, f: Format): Bytes {
    [123] + (if trail == [] then [] else [NEWLINE]) + Layout(es, first, lead, trail, f) + closing + [125]
  }

  /** A printed block is read as its dotted keys and values, up to its closing brace. */
  lemma BlockParses(before: Bytes, es: seq<Entry<Value>>, first: Bytes, lead: Bytes, trail: Bytes, closing: Bytes,
                    after: Bytes, f: Format)
    requires Sound(f) && Separating(first, lead, trail) && Spaces(closing)
    requires forall i :: 0 <= i < |es| ==> Scannable(es[i], f)
    ensures var text := BlockText(es, first, lead, trail, closing, f);
            var src, end := before + text + after, |before| + |text|;
            MapBlockAt(src, NextToken(src, |before|), f)
            == Filled(Some(Parsed(Plainly(es), NextToken(src, end))), MapT(map[]))
  {
    hide Layout, EntriesAt, NextToken, Fill, Scannable, Sound, SkipNewlines, Separating;
    var gap := if trail == [] then [] else [NEWLINE];
    var body := Layout(es, first, lead, trail, f);
    var text := [123] + gap + body + closing + [125];
    var src, end := before + text + after, |before| + |text|;
    assert Holds(src, |before|, end, text);
    var start, stop := BlockParts(src, |before|, end, gap, body, closing);
    SeparatingLater(first, lead, trail);
    TrailSkipped(src, |before| + 1, start, gap, f);
    LayoutParses(src, start, stop, es, first, lead, trail, f);
  }

  /** Printing a nested map as entries, in any order and in either layout, and parsing the block gives the map back and
      stops behind its closing brace. */
  lemma MapRoundTrip(before: Bytes, t: Tree<Value>, es: seq<Entry<Value>>, first: Bytes, lead: Bytes, trail: Bytes,
                     closing: Bytes, after: Bytes, f: Format)
    requires Sound(f) && Separating(first, lead, trail) && Spaces(closing)
    requires Mapped(t) && Nested(t) && Flattens(t, es) && forall i :: 0 <= i < |es| ==> Writable(es[i], f)
    ensures var text := BlockText(es, first, lead, trail, closing, f);
            var src, end := before + text + after, |before| + |text|;
            MapBlockAt(src, NextToken(src, |before|), f) == Some(Parsed(t, NextToken(src, end)))
  {
    hide BlockText, MapBlockAt, NextToken, Fill, Replay, Scannable, Sound, Nested, Mapped, Flattens, Separating;
    BlockParses(before, es, first, lead, trail, closing, after, f);
    FillReplays(MapT(map[]), es, f);
    ReplayRebuilds(t, es);
  }

  // ---------- keys with dots ----------

  /** No key of the tree holds a dot. */
  predicate NoDots<V>(t: Tree<V>)
    decreases t
  {
    t.MapT? ==> forall k | k in t.entries :: DOT !in k && NoDots(t.entries[k])
  }

  lemma {:induction false} SplitDotFree(s: Bytes)
    ensures DotFree(Split(s))
    decreases |s|
  {
    var i := IndexOf(s, DOT);
    if i >= 0 {
      SplitDotFree(s[i + 1..]);
    }
  }

  lemma {:induction false} AssignNoDots<V>(t: Tree<V>, path: seq<Bytes>, v: V)
    requires t.MapT? && NoDots(t) && DotFree(path)
    ensures NoDots(Assign(t, path, v).0)
    decreases |path|
  {
    if |path| > 1 {
      AssignNoDots(Inner(t, path[0]), path[1..], v);
    }
  }

  lemma {:induction false} FillNoDots<V>(t: Tree<V>, es: seq<(Bytes, V)>)
    requires t.MapT? && NoDots(t)
    ensures NoDots(Fill(t, es).0)
    decreases |es|
  {
    if es != [] {
      var (key, v) := es[0];
      SplitDotFree(key);
      if DOT in key {
        AssignNoDots(t, Split(key), v);
      }
      FillNoDots(StoreAt(t, key, v).0, es[1..]);
    }
  }

  lemma {:induction false} NoDotsPath<V>(t: Tree<V>, path: seq<Bytes>)
    requires NoDots(t) && LeafAt(t, path).Some?
    ensures DotFree(path)
    decreases |path|
  {
    if path != [] {
      NoDotsPath(t.entries[path[0]], path[1..]);
      assert path == [path[0]] + path[1..];
    }
  }

  /** If every dotted key is read as one word, the map comes back if and only if none of its keys holds a dot. */
  lemma MapRoundTripExactly(before: Bytes, t: Tree<Value>, es: seq<Entry<Value>>, first: Bytes, lead: Bytes,
                            trail: Bytes, closing: Bytes, after: Bytes, f: Format)
    requires Sound(f) && Separating(first, lead, trail) && Spaces(closing)
    requires Mapped(t) && Nested(t) && Flattens(t, es) && forall i :: 0 <= i < |es| ==> Scannable(es[i], f)
    ensures var text := BlockText(es, first, lead, trail, closing, f);
            var src, end := before + text + after, |before| + |text|;
            MapBlockAt(src, NextToken(src, |before|), f) == Some(Parsed(t, NextToken(src, end)))
            <==> forall i :: 0 <= i < |es| ==> DotFree(es[i].path)
  {
    hide BlockText, MapBlockAt, NextToken, Fill, Scannable, Sound, Nested, Mapped, Separating, DotFree;
    var text := BlockText(es, first, lead, trail, closing, f);
    var src := before + text + after;
    if forall i :: 0 <= i < |es| ==> DotFree(es[i].path) {
      MapRoundTrip(before, t, es, first, lead, trail, closing, after, f);
    } else if MapBlockAt(src, NextToken(src, |before|), f) == Some(Parsed(t, NextToken(src, |before| + |text|))) {
      BlockParses(before, es, first, lead, trail, closing, after, f);
      FillNoDots(MapT(map[]), Plainly(es));
      forall i | 0 <= i < |es|
        ensures DotFree(es[i].path)
      {
        NoDotsPath(t, es[i].path);
      }
    }
  }

  /** A map whose one key is "a b". */
  const SPACED: Bytes := [97, 32, 98]

  lemma SpacedText(f: Format)
    ensures BlockText([Entry([SPACED], VInt(1))], [], [32], [], [], f) == [123, 97, 32, 98, 32, 61, 32, 49, 125]
  {
    var e := Entry([SPACED], VInt(1));
    assert Dots(e.path) == SPACED by { assert e.path[..0] == []; }
    assert Print(VInt(1), f) == [49];
    LayoutOne(e, [], [32], [], f);
    assert EntryText(e, f) == [97, 32, 98, 32, 61, 32, 49];
    assert Layout([e], [], [32], [], f) == [97, 32, 98, 32, 61, 32, 49];
  }

  lemma SpacedFlattens()
    ensures Flattens(MapT(map[SPACED := LeafT(VInt(1))]), [Entry([SPACED], VInt(1))])
  {
    var t: Tree<Value> := MapT(map[SPACED := LeafT(VInt(1))]);
    forall p | LeafAt(t, p).Some?
      ensures p == [SPACED]
    {
      assert p[0] == SPACED && t.entries[p[0]] == LeafT(VInt(1));
      assert LeafAt(t.entries[p[0]], p[1..]).Some? && p[1..] == [];
      assert p == [p[0]] + p[1..];
    }
    assert LeafAt(t, [SPACED]) == Some(VInt(1)) by { assert [SPACED][1..] == []; }
    assert [Entry([SPACED], VInt(1))][0].path == [SPACED];
  }

  /** A key that is no word: `{a b = 1}` does not parse. */
  lemma SpacedKeyLost(f: Format)
    ensures Flattens(MapT(map[SPACED := LeafT(VInt(1))]), [Entry([SPACED], VInt(1))])
    ensures var src := BlockText([Entry([SPACED], VInt(1))], [], [32], [], [], f);
            MapBlockAt(src, NextToken(src, 0), f) == None
  {
    hide EntriesAt, ValueAt, BlockText, Flattens, NextToken;
    SpacedText(f);
    SpacedFlattens();
    var src: Bytes := [123, 97, 32, 98, 32, 61, 32, 49, 125];
    assert NextToken(src, 0) == Token(LBrace, 0, 1) by { BraceToken(src); }
    WordToken(src, 1, 2);
    WordToken(src, 3, 4);
    SkipSpaces(src, 2, 3);
    EntriesStep(src, NextToken(src, 1), f);
  }

  lemma BraceToken(src: Bytes)
    requires src != [] && src[0] == 123
    ensures NextToken(src, 0) == Token(LBrace, 0, 1)
  {
  }

  /** Where a block's body starts and stops, and the tokens of its braces. */
  lemma BlockParts(src: Bytes, n: nat, end: nat, gap: Bytes, body: Bytes, closing: Bytes)
    returns (start: nat, stop: nat)
    requires Holds(src, n, end, [123] + gap + body + closing + [125]) && Spaces(closing)
    ensures Holds(src, n + 1, start, gap) && Holds(src, start, stop, body)
    ensures NextToken(src, n) == Token(LBrace, n, n + 1)
    ensures NextToken(src, stop) == Token(RBrace, end - 1, end) && Delimited(src, stop)
  {
    HoldsSplit(src, n, end, [123] + gap + body + closing, [125]);
    HoldsSplit(src, n, end - 1, [123] + gap + body, closing);
    HoldsSplit(src, n, end - 1 - |closing|, [123] + gap, body);
    HoldsSplit(src, n, n + 1 + |gap|, [123], gap);
    start, stop := n + 1 + |gap|, end - 1 - |closing|;
    BraceTokens(src, n, stop, end, closing);
  }

  lemma BraceTokens(src: Bytes, open: nat, stop: nat, end: nat, closing: Bytes)
    requires end > 0 && Holds(src, open, open + 1, [123]) && Holds(src, stop, end - 1, closing)
    requires Holds(src, end - 1, end, [125]) && Spaces(closing)
    ensures NextToken(src, open) == Token(LBrace, open, open + 1)
    ensures NextToken(src, stop) == Token(RBrace, end - 1, end) && Delimited(src, stop)
  {
    HoldsBytes(src, open, open + 1, [123]);
    HoldsBytes(src, end - 1, end, [125]);
    assert src[open + 0] == 123 && src[end - 1 + 0] == 125;
    SpacesSkipped(src, stop, end - 1, closing);
  }

  // ---------- the printers ----------

  /** The entries name every plain value of the map that stands at `path` through one of the keys in `keys`. */
  ghost predicate Lists(t: Tree<Value>, path: seq<Bytes>, keys: set<Bytes>, es: seq<Entry<Value>>) {
    && (forall i :: 0 <= i < |es| ==>
                      Below(path, keys, es[i].path) && LeafAt(t, es[i].path[|path|..]) == Some(es[i].value))
    && (forall q :: q != [] && q[0] in keys && LeafAt(t, q).Some? ==>
                      exists i :: 0 <= i < |es| && es[i].path == path + q)
  }

  predicate Below(path: seq<Bytes>, keys: set<Bytes>, p: seq<Bytes>) {
    path < p && p[|path|] in keys
  }

  /** A leaf of a map is a leaf of one of its children. */
  lemma LeafBelow(t: Tree<Value>, q: seq<Bytes>)
    requires LeafAt(t, q).Some?
    ensures if q == [] then t.LeafT?
            else t.MapT? && q[0] in t.entries && LeafAt(t.entries[q[0]], q[1..]) == LeafAt(t, q)
  {
  }

  lemma ListsLeaf(t: Tree<Value>, path: seq<Bytes>, keys: set<Bytes>, es: seq<Entry<Value>>, k: Bytes, v: Value)
    requires t.MapT? && k in t.entries && t.entries[k] == LeafT(v) && Lists(t, path, keys, es)
    ensures Lists(t, path, keys + {k}, es + [Entry(path + [k], v)])
  {
    var es' := es + [Entry(path + [k], v)];
    assert (path + [k])[|path|..] == [k] && [k][1..] == [];
    assert path < path + [k] && (path + [k])[|path|] == k;
    forall q | q != [] && q[0] in keys + {k} && LeafAt(t, q).Some?
      ensures exists i :: 0 <= i < |es'| && es'[i].path == path + q
    {
      if q[0] == k {
        LeafBelow(t, q);
        LeafBelow(t.entries[k], q[1..]);
        assert q == [k] + q[1..];
        assert es'[|es|].path == path + q;
      } else {
        var i :| 0 <= i < |es| && es[i].path == path + q;
        assert es'[i].path == path + q;
      }
    }
  }

  lemma ListsInner(t: Tree<Value>, path: seq<Bytes>, keys: set<Bytes>, es: seq<Entry<Value>>, k: Bytes,
                   inner: seq<Entry<Value>>)
    requires t.MapT? && k in t.entries && t.entries[k].MapT? && Lists(t, path, keys, es)
    requires Lists(t.entries[k], path + [k], t.entries[k].entries.Keys, inner)
    ensures Lists(t, path, keys + {k}, es + inner)
  {
    hide LeafAt, Below;
    var es', c := es + inner, t.entries[k];
    forall i | 0 <= i < |inner|
      ensures |path| <= |inner[i].path| && Below(path, keys + {k}, inner[i].path)
              && LeafAt(t, inner[i].path[|path|..]) == Some(inner[i].value)
    {
      InnerBelow(t, path, keys, k, inner[i].path);
    }
    forall i | 0 <= i < |es| ensures Below(path, keys + {k}, es[i].path) && |path| <= |es[i].path| {
      BelowMore(path, keys, k, es[i].path);
    }
    forall q | q != [] && q[0] in keys + {k} && LeafAt(t, q).Some?
      ensures exists i :: 0 <= i < |es'| && es'[i].path == path + q
    {
      if q[0] == k {
        LeafBelow(t, q);
        LeafBelow(c, q[1..]);
        var i :| 0 <= i < |inner| && inner[i].path == path + [k] + q[1..];
        assert q == [k] + q[1..];
        assert path + q == path + [k] + q[1..];
        assert es'[|es| + i].path == path + q;
      } else {
        var i :| 0 <= i < |es| && es[i].path == path + q;
        assert es'[i].path == path + q;
      }
    }
  }

  lemma BelowMore(path: seq<Bytes>, keys: set<Bytes>, k: Bytes, p: seq<Bytes>)
    requires Below(path, keys, p)
    ensures Below(path, keys + {k}, p) && path < p
  {
  }

  lemma InnerBelow(t: Tree<Value>, path: seq<Bytes>, keys: set<Bytes>, k: Bytes, p: seq<Bytes>)
    requires t.MapT? && k in t.entries && t.entries[k].MapT? && Below(path + [k], t.entries[k].entries.Keys, p)
    ensures Below(path, keys + {k}, p) && |path + [k]| <= |p|
    ensures LeafAt(t, p[|path|..]) == LeafAt(t.entries[k], p[|path + [k]|..])
  {
    assert path + [k] == p[..|path| + 1];
    assert p[|path|] == (path + [k])[|path|] && p[..|path|] == (path + [k])[..|path|] == path;
    assert p[|path|..][1..] == p[|path + [k]|..] && p[|path|..][0] == k;
  }

  lemma ListsFlattens(t: Tree<Value>, es: seq<Entry<Value>>)
    requires t.MapT? && Lists(t, [], t.entries.Keys, es)
    ensures Flattens(t, es)
  {
    forall i | 0 <= i < |es| ensures es[i].path != [] && LeafAt(t, es[i].path) == Some(es[i].value) {
      assert es[i].path[0..] == es[i].path;
    }
    forall q | LeafAt(t, q).Some? ensures exists i :: 0 <= i < |es| && es[i].path == q {
      assert [] + q == q && q[0] in t.entries.Keys;
    }
  }

  /** `appendMapInlineEntries`: the keys of each map come in any order. */
  method AppendInlineEntries(dst: Bytes, prefix: Bytes, t: Tree<Value>, count: nat, f: Format, ghost path: seq<Bytes>)
    returns (r: Bytes, n: nat, ghost es: seq<Entry<Value>>)
    requires Mapped(t) && prefix == Dots(path)
    ensures Lists(t, path, t.entries.Keys, es) && n == count + |es|
    ensures r == dst + Layout(es, if count == 0 then [] else [32], [32], [], f)
    decreases t
  {
    hide Layout, Print, Lists, Dots, Extend;
    ghost var first: Bytes := if count == 0 then [] else [32];
    ghost var done := {};
    r, n, es := dst, count, [];
    NothingListed(t, path, first, [32], [], f);
    var keys := t.entries.Keys;
    while keys != {}
      invariant done + keys == t.entries.Keys && n == count + |es|
      invariant Lists(t, path, done, es) && r == dst + Layout(es, first, [32], [], f)
      decreases keys
    {
      var k :| k in keys;
      var grown := Extend(prefix, k);
      DotsGrow(path, k);
      ghost var text := Layout(es, first, [32], [], f);
      var c := t.entries[k];
      ghost var below;
      if c.MapT? {
        r, n, below := AppendInlineEntries(r, grown, c, n, f, path + [k]);
        ListsInner(t, path, done, es, k, below);
      } else {
        if n > 0 {
          r := r + [32];
        }
        r := r + (grown + ASSIGN + Print(c.value, f));
        n := n + 1;
        below := [Entry(path + [k], c.value)];
        LayoutOne(below[0], if count + |es| == 0 then [] else [32], [32], [], f);
        ListsLeaf(t, path, done, es, k, c.value);
      }
      assert r == dst + (text + Layout(below, if count + |es| == 0 then [] else [32], [32], [], f));
      LayoutAppend(es, below, first, [32], [], f);
      es := es + below;
      done := done + {k};
      keys := keys - {k};
    }
  }

  lemma NothingListed(t: Tree<Value>, path: seq<Bytes>, first: Bytes, lead: Bytes, trail: Bytes, f: Format)
    ensures Lists(t, path, {}, []) && Layout([], first, lead, trail, f) == []
  {
  }

  /** `appendFactsEntriesBCL`: one entry a line. */
  method AppendFactsEntries(dst: Bytes, indent: Bytes, prefix: Bytes, t: Tree<Value>, f: Format, ghost path: seq<Bytes>)
    returns (r: Bytes, ghost es: seq<Entry<Value>>)
    requires Mapped(t) && prefix == Dots(path)
    ensures Lists(t, path, t.entries.Keys, es)
    ensures r == dst + Layout(es, indent, indent, [NEWLINE], f)
    decreases t
  {
    hide Layout, Print, Lists, Dots, Extend;
    ghost var done := {};
    r, es := dst, [];
    NothingListed(t, path, indent, indent, [NEWLINE], f);
    var keys := t.entries.Keys;
    while keys != {}
      invariant done + keys == t.entries.Keys
      invariant Lists(t, path, done, es) && r == dst + Layout(es, indent, indent, [NEWLINE], f)
      decreases keys
    {
      var k :| k in keys;
      var grown := Extend(prefix, k);
      DotsGrow(path, k);
      ghost var text := Layout(es, indent, indent, [NEWLINE], f);
      var c := t.entries[k];
      ghost var below;
      if c.MapT? {
        r, below := AppendFactsEntries(r, indent, grown, c, f, path + [k]);
        ListsInner(t, path, done, es, k, below);
      } else {
        r := r + (indent + (grown + ASSIGN + Print(c.value, f)) + [NEWLINE]);
        below := [Entry(path + [k], c.value)];
        LayoutOne(below[0], indent, indent, [NEWLINE], f);
        ListsLeaf(t, path, done, es, k, c.value);
      }
      assert r == dst + (text + Layout(below, indent, indent, [NEWLINE], f));
      LayoutAppend(es, below, indent, indent, [NEWLINE], f);
      es := es + below;
      done := done + {k};
      keys := keys - {k};
    }
  }

  /** `appendMapInlineBlock`: what it writes parses back to a nested map whose keys are words and values keep their
      kind. */
  method AppendInlineBlock(dst: Bytes, t: Tree<Value>, f: Format) returns (r: Bytes)
    requires Mapped(t)
    ensures dst <= r
    ensures Sound(f) && Nested(t) && AllWritable(t, f)
            ==> MapBlockAt(r, NextToken(r, |dst|), f) == Some(Parsed(t, NextToken(r, |r|)))
  {
    hide Layout, Nested, Sound, Lists, Writable, MapBlockAt, NextToken;
    r := dst + [32, 123];
    var n;
    ghost var es;
    assert Dots([]) == [];
    r, n, es := AppendInlineEntries(r, [], t, 0, f, []);
    r := r + [125];
    ListsFlattens(t, es);
    if Sound(f) && Nested(t) && AllWritable(t, f) {
      MapRoundTrip(dst + [32], t, es, [], [32], [], [], [], f);
      assert r == dst + [32] + ([123] + [] + Layout(es, [], [32], [], f) + [] + [125]) + [];
      assert r[|dst|] == 32;
      SkipSpaces(r, |dst|, |dst| + 1);
    }
  }

  /** `appendFactsBlockBCL`: an empty map leaves no block at all. */
  method AppendFactsBlock(dst: Bytes, indent: Bytes, name: Bytes, t: Tree<Value>, f: Format) returns (r: Bytes)
    requires Mapped(t) && Spaces(indent)
    ensures t.entries == map[] ==> r == dst
    ensures t.entries != map[] ==> dst + indent + name <= r
    ensures t.entries != map[] && Sound(f) && Nested(t) && AllWritable(t, f)
            ==> var start := |dst + indent + name|;
                |r| > 0 && MapBlockAt(r, NextToken(r, start), f) == Some(Parsed(t, NextToken(r, |r| - 1)))
  {
    hide Layout, Nested, Sound, Lists, Writable, MapBlockAt, NextToken;
    if |t.entries| == 0 {
      return dst;
    }
    var head := dst + indent + name;
    r := head + [32, 123, NEWLINE];
    ghost var es;
    assert Dots([]) == [];
    r, es := AppendFactsEntries(r, indent + [32, 32], [], t, f, []);
    r := r + indent + [125, NEWLINE];
    ListsFlattens(t, es);
    if Sound(f) && Nested(t) && AllWritable(t, f) {
      var lead := indent + [32, 32];
      MapRoundTrip(head + [32], t, es, lead, lead, [NEWLINE], indent, [NEWLINE], f);
      assert r == head + [32] + ([123] + [NEWLINE] + Layout(es, lead, lead, [NEWLINE], f) + indent + [125]) + [NEWLINE];
      assert r[|head|] == 32;
      SkipSpaces(r, |head|, |head| + 1);
    }
  }

  /** Every plain value of the map can be written and read back under its dotted key. */
  ghost predicate AllWritable(t: Tree<Value>, f: Format) {
    forall p :: LeafAt(t, p).Some? ==> Writable(Entry(p, LeafAt(t, p).value), f)
  }

  lemma DotsGrow(path: seq<Bytes>, key: Bytes)
    ensures Dots(path + [key]) == Extend(Dots(path), key)
  {
    assert (path + [key])[..|path|] == path;
  }

  lemma LayoutOne(e: Entry<Value>, first: Bytes, lead: Bytes, trail: Bytes, f: Format)
    ensures Layout([e], first, lead, trail, f) == first + EntryText(e, f) + trail
  {
    assert [e][1..] == [];
  }

  // ---------- the parser ----------

  /** `parseMapBlock`: a new map filled entry by entry. */
  method ParseMapBlock(p: BclParser) returns (r: Option<Heap.FactHeap<Value>>)
    requires p.Valid()
    modifies p`tok, p.scanner
    ensures p.Valid()
    ensures var want := MapBlockAt(p.scanner.src, old(p.tok), p.format);
            && r.Some? == want.Some?
            && (r.Some? ==>
                  fresh(r.value) && r.value.Valid() && r.value.tree == want.value.value && p.tok == want.value.tok)
  {
    hide EntriesAt, ValueAt, NextToken, SkipNewlines, Filled, StoreAt, Shows;
    ghost var src := p.scanner.src;
    ghost var want := MapBlockAt(src, p.tok, p.format);
    p.SkipLines();
    if p.tok.kind != LBrace {
      return None;
    }
    p.Next();
    var out := new Heap.FactHeap<Value>();
    while true
      invariant p.Valid() && fresh(out) && out.Valid() && out.tree.MapT?
      invariant want == Filled(EntriesAt(src, p.tok, p.format), out.tree)
      decreases Left(src, p.tok)
    {
      EntriesStep(src, p.tok, p.format);
      FilledEnd(out.tree, p.tok);
      ghost var m := out.tree;
      p.SkipLines();
      if p.tok.kind == RBrace {
        p.Next();
        FilledEnd(m, p.tok);
        return Some(out);
      }
      if !StringLike(p.tok.kind) {
        return None;
      }
      var key := Text(p.scanner.src, p.tok);
      p.Next();
      p.SkipLines();
      if p.tok.kind != Equal {
        return None;
      }
      p.Next();
      var value := p.ParseValue();
      if value.None? {
        return None;
      }
      FilledBehind(key, value.value, EntriesAt(src, p.tok, p.format), m);
      var ok := StoreEntry(out, key, value.value);
      if !ok {
        return None;
      }
    }
  }

  /** `out[key] = value`, or the path a dotted key names. */
  method StoreEntry<V>(heap: Heap.FactHeap<V>, key: Bytes, value: V) returns (ok: bool)
    requires heap.Valid() && heap.tree.MapT?
    modifies heap`store, heap`next, heap`tree, heap`places
    ensures heap.Valid() && heap.tree == StoreAt(old(heap.tree), key, value).0
            && ok == StoreAt(old(heap.tree), key, value).1
  {
    hide Split, Assign, Shows;
    if DOT in key {
      ok := SetFactPath(heap, Split(key), value);
      return;
    }
    ok := true;
    IsMap(heap, MapRef(heap.root), []);
    assert [] + [Key(key)] == [Key(key)] && [Key(key)][1..] == [];
    heap.Write(MapRef(heap.root), Key(key), Leaf(value), [], LeafT(value));
  }

  lemma FilledEnd(m: Tree<Value>, tok: Token)
    requires m.MapT?
    ensures Filled(None, m) == None && Filled(Some(Parsed([], tok)), m) == Some(Parsed(m, tok))
  {
  }

  /** What one entry does to the map. */
  lemma FilledBehind(key: Bytes, v: Value, rest: Option<Parsed<seq<(Bytes, Value)>>>, m: Tree<Value>)
    requires m.MapT?
    ensures Filled(Behind((key, v), rest), m) == if StoreAt(m, key, v).1 then Filled(rest, StoreAt(m, key, v).0)
            else None
  {
    hide StoreAt;
    if rest.Some? {
      assert ([(key, v)] + rest.value.value)[1..] == rest.value.value;
    }
  }
}
